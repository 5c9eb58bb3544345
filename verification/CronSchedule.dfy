/** NextRun: aliases in closed form, `@every`, and the bounded minute-by-minute search.
    An instant counts nanoseconds from the start of year 1, UTC. */
module CronSchedule {
  import opened Wrappers
  import opened GoText
  import opened Calendar
  import opened CronField
  import opened CronGrammar

  const HOUR: int := 60 * NANOS_PER_MINUTE
  const DAY: int := 24 * HOUR
  const MIN_EVERY: int := 10_000_000_000
  const MAX_EVERY: int := 366 * DAY
  const SEARCH_MINUTES: int := 366 * MINUTES_PER_DAY

  datatype Fields = Fields(minute: Field, hour: Field, day: Field, month: Field, weekday: Field)

  /** Day and weekday must both match. */
  predicate Matches(f: Fields, minute: int) {
    var day := minute / MINUTES_PER_DAY;
    && Hits(f.minute, minute % 60)
    && Hits(f.hour, minute / 60 % 24)
    && Hits(f.month, MonthOf(day))
    && Hits(f.day, DayOfMonth(day))
    && Hits(f.weekday, Weekday(day))
  }

  function FirstMatch(f: Fields, from: int, deadline: int): Option<int>
    decreases deadline - from
  {
    if from >= deadline then None else if Matches(f, from) then Some(from) else FirstMatch(f, from + 1, deadline)
  }

  /** The first minute after an instant. */
  function Candidate(from: int): int { from / NANOS_PER_MINUTE + 1 }

  function NextMinute(f: Fields, from: int): Option<int> {
    FirstMatch(f, Candidate(from), Candidate(from) + SEARCH_MINUTES)
  }

  // ---------------------------------------------------------------- texts

  /** unicode.ToLower on the characters whose lower case a schedule can use: the capital letters, the Kelvin sign, the
      dotted capital I, and the capital mu of a duration. */
  function LowerChar(c: char): char {
    if 'A' <= c <= 'Z' then (c as int + 32) as char
    else if c == '\U{212A}' then 'k'
    else if c == '\U{130}' then 'i'
    else if c == '\U{39C}' then '\U{3BC}'
    else c
  }

  /** No letter that LowerChar changes. */
  predicate Lower(s: string) { forall i | 0 <= i < |s| :: LowerChar(s[i]) == s[i] }

  function ToLower(s: string): string { seq(|s|, i requires 0 <= i < |s| => LowerChar(s[i])) }

  function WordLength(s: string): (n: nat)
    ensures n <= |s| && (s != "" && !IsSpace(s[0]) ==> n > 0) && NoSpace(s[..n])
    ensures n < |s| ==> IsSpace(s[n])
  {
    if s == "" || IsSpace(s[0]) then 0
    else
      var n := WordLength(s[1..]) + 1;
      assert forall i | 0 < i < n :: s[..n][i] == s[1..][..n - 1][i - 1];
      n
  }

  /** strings.Fields */
  function Words(s: string): (words: seq<string>)
    ensures forall w | w in words :: w != "" && NoSpace(w)
    decreases |s|
  {
    if s == "" then []
    else if IsSpace(s[0]) then Words(s[1..])
    else
      var n := WordLength(s);
      [s[..n]] + Words(s[n..])
  }

  function ParseFields(words: seq<string>): Option<Fields> {
    if |words| != 5 then None
    else
      var minute, hour := ParseField(words[0], 0, 59), ParseField(words[1], 0, 23);
      var day, month := ParseField(words[2], 1, 31), ParseField(words[3], 1, 12);
      var weekday := ParseField(words[4], 0, 7);
      if minute.None? || hour.None? || day.None? || month.None? || weekday.None? then None
      else Some(Fields(minute.value, hour.value, day.value, month.value, FoldSunday(weekday.value)))
  }

  /** time.Date(year, month, day of `from` plus `ahead`, 0, 0, 0, 0, UTC). */
  function MidnightAhead(from: int, ahead: int): int {
    var today := from / DAY;
    DayNumber(YearOf(today), MonthOf(today), DayOfMonth(today) + ahead) * DAY
  }

  function DaysUntilMonday(from: int): int {
    var days := (8 - Weekday(from / DAY)) % 7;
    if days == 0 then 7 else days
  }

  /** The next run, or None for the source's error. `parseDuration` stands for time.ParseDuration. */
  function NextRun(schedule: string, from: int, parseDuration: string -> Option<int>): Option<int> {
    var s := TrimSpace(ToLower(schedule));
    if s == "" then None
    else if s == "@hourly" then Some(from / HOUR * HOUR + HOUR)
    else if s == "@daily" then Some(MidnightAhead(from, 1))
    else if s == "@weekly" then Some(MidnightAhead(from, DaysUntilMonday(from)))
    else if HasPrefix(s, "@every ") then
      var d := parseDuration(TrimSpace(s[7..]));
      if d.None? || d.value < MIN_EVERY || d.value > MAX_EVERY then None else Some(from + d.value)
    else
      match ParseFields(Words(s))
      case None => None
      case Some(f) =>
        match NextMinute(f, from)
        case None => None
        case Some(minute) => Some(minute * NANOS_PER_MINUTE)
  }

  /** The search loop. */
  method Search(f: Fields, from: int) returns (r: Option<int>)
    ensures r == NextMinute(f, from)
  {
    var candidate := Candidate(from);
    var deadline := candidate + SEARCH_MINUTES;
    while candidate < deadline
      invariant candidate <= deadline && NextMinute(f, from) == FirstMatch(f, candidate, deadline)
    {
      var day := candidate / MINUTES_PER_DAY;
      if Hits(f.minute, candidate % 60) && Hits(f.hour, candidate / 60 % 24) && Hits(f.month, MonthOf(day)) &&
         Hits(f.day, DayOfMonth(day)) && Hits(f.weekday, Weekday(day)) {
        return Some(candidate);
      }
      candidate := candidate + 1;
    }
    return None;
  }

  /** NextRun's five-field path: parse each word, fold weekday 7 into 0, search. */
  method NextOfFields(s: string, from: int) returns (r: Option<int>)
    ensures r == match ParseFields(Words(s)) case None => None case Some(f) => NextMinute(f, from)
  {
    var words := Words(s);
    if |words| != 5 { return None; }
    var minute := Parse(words[0], 0, 59);
    if minute.None? { return None; }
    var hour := Parse(words[1], 0, 23);
    if hour.None? { return None; }
    var day := Parse(words[2], 1, 31);
    if day.None? { return None; }
    var month := Parse(words[3], 1, 12);
    if month.None? { return None; }
    var weekday := Parse(words[4], 0, 7);
    if weekday.None? { return None; }
    var values := weekday.value.values;
    if 7 in values { values := values + {0}; values := values - {7}; }
    assert FoldSunday(weekday.value) == Field(weekday.value.any, values);
    r := Search(Fields(minute.value, hour.value, day.value, month.value, Field(weekday.value.any, values)), from);
  }

  // ---------------------------------------------------------------- the search

  lemma {:induction false} FirstMatchIsFirst(f: Fields, from: int, deadline: int)
    ensures match FirstMatch(f, from, deadline)
            case Some(t) => from <= t < deadline && Matches(f, t) && (forall k | from <= k < t :: !Matches(f, k))
            case None => forall k | from <= k < deadline :: !Matches(f, k)
    decreases deadline - from
  {
    if from < deadline && !Matches(f, from) { FirstMatchIsFirst(f, from + 1, deadline); }
  }

  /** The minute lies strictly after the instant. */
  predicate AfterInstant(minute: int, from: int) { minute * NANOS_PER_MINUTE > from }

  lemma AfterInstantMeansCandidate(minute: int, from: int)
    ensures AfterInstant(minute, from) <==> minute >= Candidate(from)
  {}

  /** The search returns the least minute strictly after the instant that matches all five fields, and fails
      exactly when no minute of the 366 days from the first candidate matches. */
  lemma SearchFindsLeast(f: Fields, from: int)
    ensures match NextMinute(f, from)
            case Some(t) => AfterInstant(t, from) && Matches(f, t) && forall k | AfterInstant(k, from) && k < t :: !Matches(f, k)
            case None => true
    ensures NextMinute(f, from).None? <==> forall k | Candidate(from) <= k < Candidate(from) + SEARCH_MINUTES :: !Matches(f, k)
  {
    FirstMatchIsFirst(f, Candidate(from), Candidate(from) + SEARCH_MINUTES);
    forall k ensures AfterInstant(k, from) <==> k >= Candidate(from) { AfterInstantMeansCandidate(k, from); }
  }

  /** A found minute in the window is the answer if nothing before it matches. */
  lemma SearchFinds(f: Fields, from: int, t: int)
    requires Candidate(from) <= t < Candidate(from) + SEARCH_MINUTES && Matches(f, t)
    requires forall k | Candidate(from) <= k < t :: !Matches(f, k)
    ensures NextMinute(f, from) == Some(t)
  {
    SearchFindsLeast(f, from);
    AfterInstantMeansCandidate(t, from);
    AfterInstantMeansCandidate(NextMinute(f, from).value, from);
  }

  /** Any instant from `from` up to, not including, the next run has the same next run. */
  lemma SameAnswerUntilRun(f: Fields, from: int, later: int)
    ensures NextMinute(f, from).Some? && from <= later < NextMinute(f, from).value * NANOS_PER_MINUTE
            ==> NextMinute(f, later) == NextMinute(f, from)
  {
    hide Matches, NextMinute;
    if NextMinute(f, from).Some? && from <= later < NextMinute(f, from).value * NANOS_PER_MINUTE {
      SameAnswer(f, from, later, NextMinute(f, from).value);
    }
  }

  lemma SameAnswer(f: Fields, from: int, later: int, t: int)
    requires NextMinute(f, from) == Some(t) && from <= later < t * NANOS_PER_MINUTE
    ensures NextMinute(f, later) == Some(t)
  {
    hide Matches;
    FirstMatchIsFirst(f, Candidate(from), Candidate(from) + SEARCH_MINUTES);
    assert Candidate(from) <= Candidate(later) <= t;
    SearchFinds(f, later, t);
  }

  /** Running NextRun again from each answer, at most n times. */
  function Runs(f: Fields, from: int, n: nat): seq<int>
    decreases n
  {
    if n == 0 then []
    else
      match NextMinute(f, from)
      case None => []
      case Some(t) => [t] + Runs(f, t * NANOS_PER_MINUTE, n - 1)
  }

  function LastRun(f: Fields, from: int, n: nat): int {
    var runs := Runs(f, from, n);
    if runs == [] then from else runs[|runs| - 1] * NANOS_PER_MINUTE
  }

  lemma {:induction false} RunsGrow(f: Fields, from: int, n: nat)
    ensures forall t | t in Runs(f, from, n) :: AfterInstant(t, from)
    ensures forall i, j | 0 <= i < j < |Runs(f, from, n)| :: Runs(f, from, n)[i] < Runs(f, from, n)[j]
    ensures LastRun(f, from, n) >= from
    decreases n
  {
    SearchFindsLeast(f, from);
    hide Matches, NextMinute;
    if n > 0 && NextMinute(f, from).Some? {
      var t := NextMinute(f, from).value;
      var rest := Runs(f, t * NANOS_PER_MINUTE, n - 1);
      RunsGrow(f, t * NANOS_PER_MINUTE, n - 1);
      assert Runs(f, from, n) == [t] + rest;
      assert forall j | 0 <= j < |rest| :: rest[j] in rest;
    }
  }

  /** Iterating lists the matching minutes in order with none skipped, and stops early only where the
      next 366 days hold no match. */
  lemma {:induction false} RunsSkipNothing(f: Fields, from: int, n: nat)
    ensures forall t :: t in Runs(f, from, n) <==>
              Matches(f, t) && AfterInstant(t, from) && t * NANOS_PER_MINUTE <= LastRun(f, from, n)
    ensures |Runs(f, from, n)| < n ==> NextMinute(f, LastRun(f, from, n)).None?
    decreases n
  {
    SearchFindsLeast(f, from);
    hide Matches, NextMinute;
    if n > 0 && NextMinute(f, from).Some? {
      var t := NextMinute(f, from).value;
      var rest := Runs(f, t * NANOS_PER_MINUTE, n - 1);
      RunsSkipNothing(f, t * NANOS_PER_MINUTE, n - 1);
      RunsGrow(f, t * NANOS_PER_MINUTE, n - 1);
      assert Runs(f, from, n) == [t] + rest;
      assert LastRun(f, from, n) == LastRun(f, t * NANOS_PER_MINUTE, n - 1);
      assert forall k :: k in [t] + rest <==> k == t || k in rest;
      assert forall k :: AfterInstant(k, t * NANOS_PER_MINUTE) <==> k > t;
    }
  }

  // ---------------------------------------------------------------- the aliases

  lemma MidnightIsDayAhead(from: int, ahead: int)
    ensures MidnightAhead(from, ahead) == (from / DAY + ahead) * DAY
  {
    DayRoundTrip(from / DAY);
  }

  lemma InstantParts(from: int)
    ensures from / HOUR == from / NANOS_PER_MINUTE / 60
    ensures from / DAY == from / NANOS_PER_MINUTE / MINUTES_PER_DAY
  {}

  const STAR: Field := Field(true, {})

  function Exactly(v: int): Field { Field(false, {v}) }

  /** Nothing strictly between a number and the next multiple of n is a multiple of n. */
  lemma NoMultipleBetween(q: int, k: int, n: int)
    requires (n == 60 || n == MINUTES_PER_DAY) && q < k < (q / n + 1) * n
    ensures k % n != 0 && k / n == q / n
  {}

  lemma HourlyMatches(k: int)
    ensures Matches(Fields(Exactly(0), STAR, STAR, STAR, STAR), k) <==> k % 60 == 0
  {
    hide MonthOf, DayOfMonth, Weekday;
  }

  lemma HourlySearch(from: int)
    ensures NextMinute(Fields(Exactly(0), STAR, STAR, STAR, STAR), from) == Some((from / HOUR + 1) * 60)
  {
    hide Matches, NextMinute;
    InstantParts(from);
    var f, q, t := Fields(Exactly(0), STAR, STAR, STAR, STAR), from / NANOS_PER_MINUTE, (from / HOUR + 1) * 60;
    forall k | Candidate(from) <= k < t ensures !Matches(f, k) {
      NoMultipleBetween(q, k, 60);
      HourlyMatches(k);
    }
    HourlyMatches(t);
    SearchFinds(f, from, t);
  }

  lemma MidnightOnly(k: int)
    ensures k % 60 == 0 && k / 60 % 24 == 0 <==> k % MINUTES_PER_DAY == 0
  {
    assert k == 60 * (k / 60) + k % 60;
    assert k / 60 == 24 * (k / 60 / 24) + k / 60 % 24;
  }

  lemma DailyMatches(k: int)
    ensures Matches(Fields(Exactly(0), Exactly(0), STAR, STAR, STAR), k) <==> k % MINUTES_PER_DAY == 0
  {
    hide MonthOf, DayOfMonth, Weekday;
    MidnightOnly(k);
  }

  lemma DailySearch(from: int)
    ensures NextMinute(Fields(Exactly(0), Exactly(0), STAR, STAR, STAR), from) == Some((from / DAY + 1) * MINUTES_PER_DAY)
  {
    hide Matches, NextMinute;
    InstantParts(from);
    var f, q := Fields(Exactly(0), Exactly(0), STAR, STAR, STAR), from / NANOS_PER_MINUTE;
    var t := (from / DAY + 1) * MINUTES_PER_DAY;
    forall k | Candidate(from) <= k < t ensures !Matches(f, k) {
      DailyMatches(k);
      NoMultipleBetween(q, k, MINUTES_PER_DAY);
    }
    DailyMatches(t);
    SearchFinds(f, from, t);
  }

  /** Monday comes after exactly DaysUntilMonday days, never today. */
  lemma MondayAhead(today: int, ahead: int, day: int)
    requires ahead == (if (8 - Weekday(today)) % 7 == 0 then 7 else (8 - Weekday(today)) % 7)
    requires today <= day <= today + ahead
    ensures 1 <= ahead <= 7
    ensures Weekday(today + ahead) == 1
    ensures today < day < today + ahead ==> Weekday(day) != 1
  {
    var d := (today + 1) % 7;
    assert today + 1 == 7 * ((today + 1) / 7) + d;
    var e := day - today;
    assert (day + 1) % 7 == (d + e) % 7 && (today + ahead + 1) % 7 == (d + ahead) % 7 by {
      SameRemainder((today + 1) / 7, d + e);
      SameRemainder((today + 1) / 7, d + ahead);
      assert day + 1 == 7 * ((today + 1) / 7) + (d + e);
      assert today + ahead + 1 == 7 * ((today + 1) / 7) + (d + ahead);
    }
  }

  lemma SameRemainder(q: int, r: int)
    ensures (7 * q + r) % 7 == r % 7
  {}

  lemma WeeklySearch(from: int)
    ensures NextMinute(Fields(Exactly(0), Exactly(0), STAR, STAR, Exactly(1)), from)
         == Some((from / DAY + DaysUntilMonday(from)) * MINUTES_PER_DAY)
  {
    InstantParts(from);
    var today, ahead, q := from / DAY, DaysUntilMonday(from), from / NANOS_PER_MINUTE;
    var f, t := Fields(Exactly(0), Exactly(0), STAR, STAR, Exactly(1)), (today + ahead) * MINUTES_PER_DAY;
    MondayAhead(today, ahead, today);
    forall k | Candidate(from) <= k < t ensures !Matches(f, k) {
      MidnightOnly(k);
      var day := k / MINUTES_PER_DAY;
      assert today <= day < today + ahead;
      MondayAhead(today, ahead, day);
      if day == today { NoMultipleBetween(q, k, MINUTES_PER_DAY); }
    }
    MidnightOnly(t);
    assert t % MINUTES_PER_DAY == 0 && t / MINUTES_PER_DAY == today + ahead && Matches(f, t);
    hide Matches, Weekday;
    SearchFinds(f, from, t);
  }

  lemma {:induction false} WordEnds(word: string, rest: string)
    requires NoSpace(word)
    ensures WordLength(word) == |word| && WordLength(word + " " + rest) == |word|
  {
    var s := word + " " + rest;
    if word == "" {
      assert s[0] == ' ';
    } else {
      WordEnds(word[1..], rest);
      assert s[1..] == word[1..] + " " + rest;
    }
  }

  lemma SplitOffWord(word: string, rest: string)
    requires word != "" && NoSpace(word)
    ensures Words(word + " " + rest) == [word] + Words(rest) && Words(word) == [word]
  {
    var s := word + " " + rest;
    WordEnds(word, rest);
    assert s[..|word|] == word && s[|word|..] == " " + rest && s[|word|..][1..] == rest;
    assert word[..|word|] == word && word[|word|..] == "";
  }

  lemma FiveWords(a: string, b: string, c: string, d: string, e: string)
    requires a != "" && NoSpace(a) && b != "" && NoSpace(b) && c != "" && NoSpace(c)
    requires d != "" && NoSpace(d) && e != "" && NoSpace(e)
    ensures Words(a + " " + (b + " " + (c + " " + (d + " " + e)))) == [a, b, c, d, e]
  {
    hide Words, NoSpace;
    var r1 := d + " " + e;
    var r2 := c + " " + r1;
    var r3 := b + " " + r2;
    SplitOffWord(a, r3);
    SplitOffWord(b, r2);
    SplitOffWord(c, r1);
    SplitOffWord(d, e);
    SplitOffWord(e, "");
  }

  lemma DigitValue(digit: string, v: int)
    requires (digit == "0" && v == 0) || (digit == "1" && v == 1)
    ensures AllDigits(digit) && Value(digit) == v
  {
    assert digit[..0] == "";
  }

  lemma OnePart(p: Part, min: int, max: int)
    requires 0 <= min <= max <= MAX_BOUND && GoodPart(p, min, max)
    ensures PrintParts([p]) == [PrintPart(p)]
    ensures Visits([p], min, max) == StepFrom(Low(p, min, max), High(p, min, max), Step(p, min, max))
  {
    hide GoodPart, PrintPart, Low, High, Step, StepFrom;
    assert [p][..0] == [];
    assert PrintParts([]) == [] && Visits([], min, max) == {};
    assert PrintParts([p]) == PrintParts([p][..0]) + [PrintPart(p)];
  }

  lemma OneStep(v: int)
    requires 0 <= v <= MAX_BOUND
    ensures StepFrom(v, v, 1) == {v}
  {
    assert StepFrom(v, v, 1) == {v} + StepFrom(v + 1, v, 1);
  }

  lemma DigitField(digit: string, v: int, min: int, max: int)
    requires (digit == "0" && v == 0) || (digit == "1" && v == 1)
    requires 0 <= min <= v <= max <= MAX_BOUND
    ensures ParseField(digit, min, max) == Some(Exactly(v))
  {
    hide ParseField, Value, AllDigits, StepFrom, Visits, PrintParts;
    DigitValue(digit, v);
    var part := Part(One(Num(false, digit)), None);
    assert "" + digit == digit && digit + "" == digit;
    assert PrintPart(part) == digit && GoodPart(part, min, max);
    OnePart(part, min, max);
    OneStep(v);
    PrintedFieldParses(Parts([part]), min, max);
  }

  lemma StarField(min: int, max: int)
    requires 0 <= min <= max <= MAX_BOUND
    ensures ParseField("*", min, max) == Some(STAR)
  {
    PrintedFieldParses(Any, min, max);
  }

  /** Five lower-case words that are no alias are read as fields. */
  lemma ReadsAs(s: string, b: string, e: string, f: Fields, from: int, parseDuration: string -> Option<int>)
    requires s != "" && s[0] == '0' && TrimSpace(ToLower(s)) == s && Words(s) == ["0", b, "*", "*", e]
    requires ParseField("0", 0, 59) == Some(f.minute) && ParseField(b, 0, 23) == Some(f.hour)
    requires ParseField(e, 0, 7) == Some(f.weekday) && 7 !in f.weekday.values && f.day == STAR && f.month == STAR
    ensures NextRun(s, from, parseDuration)
         == match NextMinute(f, from) case None => None case Some(t) => Some(t * NANOS_PER_MINUTE)
  {
    StarField(1, 31);
    StarField(1, 12);
    hide ParseField, Words, TrimSpace, ToLower, NextMinute;
    assert s != "@hourly" && s != "@daily" && s != "@weekly" && !HasPrefix(s, "@every ");
    assert ParseFields(Words(s)) == Some(f);
  }

  lemma PlainText(s: string)
    requires |s| >= 1 && !IsSpace(s[0]) && !IsSpace(s[|s| - 1])
    requires Lower(s)
    ensures TrimSpace(ToLower(s)) == s
  {
    assert ToLower(s) == s;
    TrimSpaceId(s);
  }

  lemma AliasRuns(s: string, from: int, parseDuration: string -> Option<int>)
    requires s == "@hourly" || s == "@daily" || s == "@weekly"
    ensures NextRun(s, from, parseDuration) == Some(
              if s == "@hourly" then from / HOUR * HOUR + HOUR
              else (from / DAY + if s == "@daily" then 1 else DaysUntilMonday(from)) * DAY)
  {
    PlainText(s);
    MidnightIsDayAhead(from, 1);
    MidnightIsDayAhead(from, DaysUntilMonday(from));
    hide TrimSpace, ToLower, MidnightAhead, DaysUntilMonday;
  }

  /** Each alias gives, for every instant, what the search gives for its five fields. */
  lemma HourlyIsSearch(from: int, parseDuration: string -> Option<int>)
    ensures NextRun("@hourly", from, parseDuration) == NextRun("0 * * * *", from, parseDuration)
  {
    hide NextRun, Words, TrimSpace, ToLower, ParseField, NextMinute;
    var s := "0 * * * *";
    AliasRuns("@hourly", from, parseDuration);
    HourlySearch(from);
    DigitField("0", 0, 0, 59);
    StarField(0, 23);
    StarField(0, 7);
    FiveWords("0", "*", "*", "*", "*");
    assert s == "0" + " " + ("*" + " " + ("*" + " " + ("*" + " " + "*")));
    PlainText(s);
    ReadsAs(s, "*", "*", Fields(Exactly(0), STAR, STAR, STAR, STAR), from, parseDuration);
  }

  lemma DailyIsSearch(from: int, parseDuration: string -> Option<int>)
    ensures NextRun("@daily", from, parseDuration) == NextRun("0 0 * * *", from, parseDuration)
  {
    hide NextRun, Words, TrimSpace, ToLower, ParseField, NextMinute;
    var s := "0 0 * * *";
    AliasRuns("@daily", from, parseDuration);
    DailySearch(from);
    DigitField("0", 0, 0, 59);
    DigitField("0", 0, 0, 23);
    StarField(0, 7);
    FiveWords("0", "0", "*", "*", "*");
    assert s == "0" + " " + ("0" + " " + ("*" + " " + ("*" + " " + "*")));
    PlainText(s);
    ReadsAs(s, "0", "*", Fields(Exactly(0), Exactly(0), STAR, STAR, STAR), from, parseDuration);
  }

  lemma WeeklyIsSearch(from: int, parseDuration: string -> Option<int>)
    ensures NextRun("@weekly", from, parseDuration) == NextRun("0 0 * * 1", from, parseDuration)
  {
    hide NextRun, Words, TrimSpace, ToLower, ParseField, NextMinute, DaysUntilMonday;
    var s := "0 0 * * 1";
    AliasRuns("@weekly", from, parseDuration);
    WeeklySearch(from);
    DigitField("0", 0, 0, 59);
    DigitField("0", 0, 0, 23);
    DigitField("1", 1, 0, 7);
    FiveWords("0", "0", "*", "*", "1");
    assert s == "0" + " " + ("0" + " " + ("*" + " " + ("*" + " " + "1")));
    PlainText(s);
    ReadsAs(s, "0", "1", Fields(Exactly(0), Exactly(0), STAR, STAR, Exactly(1)), from, parseDuration);
  }

  /** Whatever the schedule, the next run comes after the instant, within 366 days. */
  lemma NextRunIsLater(schedule: string, from: int, parseDuration: string -> Option<int>)
    ensures var next := NextRun(schedule, from, parseDuration);
            next.Some? ==> from < next.value <= from + MAX_EVERY
  {
    hide TrimSpace, ToLower, ParseFields, Words, Matches, MidnightAhead, DaysUntilMonday, NextMinute;
    MidnightIsDayAhead(from, 1);
    MidnightIsDayAhead(from, DaysUntilMonday(from));
    WithinAWeek(from);
    forall f ensures NextMinute(f, from).Some? ==> from < NextMinute(f, from).value * NANOS_PER_MINUTE <= from + MAX_EVERY {
      SearchIsWithinTheYear(f, from);
    }
  }

  lemma WithinAWeek(from: int)
    ensures 1 <= DaysUntilMonday(from) <= 7
    ensures from < (from / DAY + 1) * DAY <= from + DAY && (from / DAY + 7) * DAY <= from + 7 * DAY
    ensures from < (from / DAY + DaysUntilMonday(from)) * DAY <= from + 7 * DAY
  {
    hide Weekday;
    var days := DaysUntilMonday(from);
    assert from / DAY * DAY <= from < from / DAY * DAY + DAY;
    assert (from / DAY + days) * DAY == from / DAY * DAY + days * DAY;
  }

  lemma SearchIsWithinTheYear(f: Fields, from: int)
    ensures NextMinute(f, from).Some? ==> from < NextMinute(f, from).value * NANOS_PER_MINUTE <= from + MAX_EVERY
  {
    hide Matches;
    FirstMatchIsFirst(f, Candidate(from), Candidate(from) + SEARCH_MINUTES);
  }

  // ---------------------------------------------------------------- the 366-day cut-off

  /** The field holds some value of its range. */
  ghost predicate Usable(f: Field, min: int, max: int) { exists v | min <= v <= max :: Hits(f, v) }

  ghost predicate UsableFields(f: Fields) {
    Usable(f.minute, 0, 59) && Usable(f.hour, 0, 23) && Usable(f.day, 1, 31) && Usable(f.month, 1, 12) && Usable(f.weekday, 0, 6)
  }

  lemma ParsedFieldUsable(text: string, min: int, max: int)
    requires NoSpace(text) && 0 <= min <= max <= MAX_BOUND && ParseField(text, min, max).Some?
    ensures Usable(ParseField(text, min, max).value, min, max)
  {
    var s := AcceptedFieldIsPrinted(text, min, max);
    if s.Any? {
      assert Hits(FieldOf(s, min, max), min);
    } else {
      var p := s.parts[|s.parts| - 1];
      var low := Low(p, min, max);
      assert low in StepFrom(low, High(p, min, max), Step(p, min, max));
      assert Hits(FieldOf(s, min, max), low);
    }
  }

  /** Every accepted expression has a usable value in each field. */
  lemma ParsedFieldsUsable(words: seq<string>)
    requires (forall w | w in words :: NoSpace(w)) && ParseFields(words).Some?
    ensures UsableFields(ParseFields(words).value)
  {
    assert forall i | 0 <= i < 5 :: words[i] in words;
    ParsedFieldUsable(words[0], 0, 59);
    ParsedFieldUsable(words[1], 0, 23);
    ParsedFieldUsable(words[2], 1, 31);
    ParsedFieldUsable(words[3], 1, 12);
    ParsedFieldUsable(words[4], 0, 7);
    hide ParseField;
    var w := ParseField(words[4], 0, 7).value;
    var v :| 0 <= v <= 7 && Hits(w, v);
    assert Hits(FoldSunday(w), if v == 7 && !w.any then 0 else if v == 7 then 0 else v);
  }

  /** Some selected month and day exists in every year. */
  ghost predicate InEveryYear(f: Fields) {
    exists m, d | 1 <= m <= 12 && 1 <= d <= DaysIn(false, m) :: Hits(f.month, m) && Hits(f.day, d)
  }

  /** The minute of a year at which a date and a time of day fall. */
  function MinuteIn(y: int, m: int, d: int, time: int): int
    requires 1 <= m <= 12
  {
    DayNumber(y, m, d) * MINUTES_PER_DAY + time
  }

  lemma MinuteInMatches(f: Fields, y: int, m: int, d: int, h: int, n: int)
    requires f.weekday.any && 1 <= m <= 12 && 1 <= d <= DaysIn(false, m) && 0 <= h < 24 && 0 <= n < 60
    requires Hits(f.month, m) && Hits(f.day, d) && Hits(f.hour, h) && Hits(f.minute, n)
    ensures Matches(f, MinuteIn(y, m, d, 60 * h + n))
    ensures MinuteIn(y, m, d, 60 * h + n) < MinuteIn(y + 1, m, d, 60 * h + n) <= MinuteIn(y, m, d, 60 * h + n) + SEARCH_MINUTES
  {
    DateRoundTrip(y, m, d);
    YearLength(y);
    var t := MinuteIn(y, m, d, 60 * h + n);
    TimeOfDay(DayNumber(y, m, d), h, n);
  }

  lemma TimeOfDay(day: int, h: int, n: int)
    requires 0 <= h < 24 && 0 <= n < 60
    ensures var t := day * MINUTES_PER_DAY + (60 * h + n);
            t / MINUTES_PER_DAY == day && t % 60 == n && t / 60 % 24 == h
  {
    var t := day * MINUTES_PER_DAY + (60 * h + n);
    assert t == 60 * (24 * day + h) + n;
    assert t / 60 == 24 * day + h;
  }

  /** If the weekday is free and some selected date exists in every year, the search never fails. */
  lemma FoundWithinAYear(f: Fields, from: int)
    requires UsableFields(f) && f.weekday.any && InEveryYear(f)
    ensures NextMinute(f, from).Some?
  {
    hide Matches;
    var m, d :| 1 <= m <= 12 && 1 <= d <= DaysIn(false, m) && Hits(f.month, m) && Hits(f.day, d);
    var h :| 0 <= h <= 23 && Hits(f.hour, h);
    var n :| 0 <= n <= 59 && Hits(f.minute, n);
    var c := Candidate(from);
    var y := YearOf(c / MINUTES_PER_DAY);
    MinuteInMatches(f, y, m, d, h, n);
    DateRoundTrip(y, m, d);
    YearOfBrackets(c / MINUTES_PER_DAY);
    YearOfBrackets(DayNumber(y, m, d));
    YearLength(y);
    MinuteInMatches(f, y + 1, m, d, h, n);
    YearOfBrackets(DayNumber(y + 1, m, d));
    DateRoundTrip(y + 1, m, d);
    var t := MinuteIn(y, m, d, 60 * h + n);
    var t' := MinuteIn(y + 1, m, d, 60 * h + n);
    hide YearOf, DayNumber;
    SearchFindsLeast(f, from);
    assert t < c ==> c <= t' < c + SEARCH_MINUTES;
    assert t >= c ==> t < c + SEARCH_MINUTES;
  }

  /** The first minute of 1 March 2024 has no 29 February in the next 366 days. */
  const AFTER_LEAP_DAY: int := (DayNumber(2024, 3, 1) * MINUTES_PER_DAY - 1) * NANOS_PER_MINUTE

  lemma OtherwiseNotFound(f: Fields)
    requires !InEveryYear(f)
    ensures NextMinute(f, AFTER_LEAP_DAY).None?
  {
    var first := DayNumber(2024, 3, 1);
    assert Candidate(AFTER_LEAP_DAY) == first * MINUTES_PER_DAY;
    forall k | Candidate(AFTER_LEAP_DAY) <= k < Candidate(AFTER_LEAP_DAY) + SEARCH_MINUTES ensures !Matches(f, k) {
      var day := k / MINUTES_PER_DAY;
      assert first <= day < first + 366;
      NoLeapDay(day);
      DayRoundTrip(day);
    }
    hide Matches;
    SearchFindsLeast(f, AFTER_LEAP_DAY);
  }

  lemma NoLeapDay(day: int)
    requires DayNumber(2024, 3, 1) <= day < DayNumber(2024, 3, 1) + 366
    ensures DayOfMonth(day) <= DaysIn(false, MonthOf(day))
  {
    var y := YearOf(day);
    DayRoundTrip(day);
    YearLength(2024);
    YearLength(2025);
    if day < DaysBeforeYear(2025) { YearIsUnique(day, 2024); } else { YearIsUnique(day, 2025); }
  }

  /** With a free weekday the 366-day cut-off suffices for every instant exactly when some selected month
      and day exists in every year. */
  lemma CutOffSufficesExactly(f: Fields)
    requires UsableFields(f) && f.weekday.any
    ensures (forall from :: NextMinute(f, from).Some?) <==> InEveryYear(f)
  {
    hide NextMinute;
    if InEveryYear(f) {
      forall from ensures NextMinute(f, from).Some? { FoundWithinAYear(f, from); }
    } else {
      OtherwiseNotFound(f);
    }
  }

  lemma WeeklyMatch(f: Fields, day: int, w: int, h: int, n: int)
    requires f.day.any && f.month.any && Weekday(day) == w && Hits(f.weekday, w)
    requires 0 <= h < 24 && 0 <= n < 60 && Hits(f.hour, h) && Hits(f.minute, n)
    ensures Matches(f, day * MINUTES_PER_DAY + (60 * h + n)) && Matches(f, (day + 7) * MINUTES_PER_DAY + (60 * h + n))
  {
    TimeOfDay(day, h, n);
    TimeOfDay(day + 7, h, n);
    SameWeekday(day);
    hide Weekday;
  }

  /** With free day and month a run is found in under seven days from the first candidate. */
  lemma FoundWithinAWeek(f: Fields, from: int)
    requires UsableFields(f) && f.day.any && f.month.any
    ensures NextMinute(f, from).Some? && NextMinute(f, from).value < Candidate(from) + 7 * MINUTES_PER_DAY
  {
    hide Matches, Weekday;
    var w :| 0 <= w <= 6 && Hits(f.weekday, w);
    var h :| 0 <= h <= 23 && Hits(f.hour, h);
    var n :| 0 <= n <= 59 && Hits(f.minute, n);
    var c := Candidate(from);
    var day := c / MINUTES_PER_DAY + (w - Weekday(c / MINUTES_PER_DAY)) % 7;
    WeekdayAhead(c / MINUTES_PER_DAY, w);
    WeeklyMatch(f, day, w, h, n);
    var time := 60 * h + n;
    var t := day * MINUTES_PER_DAY + time;
    var found := if t >= c then t else (day + 7) * MINUTES_PER_DAY + time;
    FoundBy(f, from, found);
  }

  lemma FoundBy(f: Fields, from: int, found: int)
    requires Candidate(from) <= found < Candidate(from) + 7 * MINUTES_PER_DAY && Matches(f, found)
    ensures NextMinute(f, from).Some? && NextMinute(f, from).value < Candidate(from) + 7 * MINUTES_PER_DAY
  {
    hide Matches;
    FirstMatchIsFirst(f, Candidate(from), Candidate(from) + SEARCH_MINUTES);
  }

  lemma WeekdayAhead(today: int, w: int)
    requires 0 <= w <= 6
    ensures Weekday(today + (w - Weekday(today)) % 7) == w
  {
    var d := Weekday(today);
    var e := (w - d) % 7;
    SameRemainder((today + 1) / 7, d + e);
    assert today + e + 1 == 7 * ((today + 1) / 7) + (d + e);
  }

  lemma SameWeekday(day: int)
    ensures Weekday(day + 7) == Weekday(day)
  {
    SameRemainder((day + 1) / 7, Weekday(day) + 7);
    assert day + 8 == 7 * ((day + 1) / 7) + (Weekday(day) + 7);
  }
}
