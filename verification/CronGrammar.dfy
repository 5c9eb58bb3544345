/** The language of cron fields: an unparser for syntax trees, and the parser inverts it both ways. */
module CronGrammar {
  import opened Wrappers
  import opened GoText
  import opened CronField

  /** A number as written: Atoi takes a leading plus sign and leading zeros. */
  datatype Num = Num(plus: bool, digits: string)

  datatype Range = Star | One(n: Num) | Span(lo: Num, hi: Num)

  datatype Part = Part(range: Range, step: Option<Num>)

  datatype Syntax = Any | Parts(parts: seq<Part>)

  function PrintNum(n: Num): string { (if n.plus then "+" else "") + n.digits }

  function PrintRange(r: Range): string {
    match r
    case Star => "*"
    case One(n) => PrintNum(n)
    case Span(lo, hi) => PrintNum(lo) + "-" + PrintNum(hi)
  }

  function PrintPart(p: Part): string { PrintRange(p.range) + if p.step.Some? then "/" + PrintNum(p.step.value) else "" }

  function PrintParts(parts: seq<Part>): (r: seq<string>)
    ensures |r| == |parts| && forall i | 0 <= i < |parts| :: r[i] == PrintPart(parts[i])
  {
    if parts == [] then [] else PrintParts(parts[..|parts| - 1]) + [PrintPart(parts[|parts| - 1])]
  }

  function Print(s: Syntax): string {
    match s
    case Any => "*"
    case Parts(parts) => Join(PrintParts(parts), ",")
  }

  predicate GoodNum(n: Num, min: int, max: int) { n.digits != "" && AllDigits(n.digits) && min <= Value(n.digits) <= max }

  predicate GoodRange(r: Range, min: int, max: int) {
    match r
    case Star => true
    case One(n) => GoodNum(n, min, max)
    case Span(lo, hi) => GoodNum(lo, min, max) && GoodNum(hi, min, max) && Value(lo.digits) <= Value(hi.digits)
  }

  predicate GoodPart(p: Part, min: int, max: int) {
    GoodRange(p.range, min, max) && (p.step.Some? ==> GoodNum(p.step.value, 1, MAX_INT64))
  }

  /** A lone bare star is `Any`. */
  predicate Good(s: Syntax, min: int, max: int) {
    s.Parts? ==> s.parts != [] && s.parts != [Part(Star, None)] && forall p | p in s.parts :: GoodPart(p, min, max)
  }

  // ---------------------------------------------------------------- meaning

  function Low(p: Part, min: int, max: int): int
    requires GoodPart(p, min, max)
  {
    match p.range case Star => min case One(n) => Value(n.digits) case Span(lo, _) => Value(lo.digits)
  }

  function High(p: Part, min: int, max: int): int
    requires GoodPart(p, min, max)
  {
    match p.range case Star => max case One(n) => Value(n.digits) case Span(_, hi) => Value(hi.digits)
  }

  function Step(p: Part, min: int, max: int): (k: int)
    requires GoodPart(p, min, max)
    ensures 0 < k <= MAX_INT64
  {
    if p.step.Some? then Value(p.step.value.digits) else 1
  }

  /** The value is in one of the arithmetic progressions the parts denote. */
  ghost predicate Denoted(v: int, parts: seq<Part>, min: int, max: int)
    requires forall p | p in parts :: GoodPart(p, min, max)
  {
    exists p | p in parts :: InPart(v, p, min, max)
  }

  ghost predicate InPart(v: int, p: Part, min: int, max: int)
    requires GoodPart(p, min, max)
  {
    v in Progression(Low(p, min, max), High(p, min, max), Step(p, min, max))
  }

  /** No part's loop counter wraps. */
  predicate NoneWraps(s: Syntax, min: int, max: int)
    requires Good(s, min, max) && s.Parts?
  {
    forall p | p in s.parts :: NoWrap(Low(p, min, max), Step(p, min, max))
  }

  // ---------------------------------------------------------------- everything printed is accepted

  predicate NumChar(c: char) { c == '+' || IsDigit(c) }

  predicate RangeChar(c: char) { NumChar(c) || c == '-' || c == '*' }

  predicate PartChar(c: char) { RangeChar(c) || c == '/' }

  predicate PartChars(s: string) { s != "" && forall i | 0 <= i < |s| :: PartChar(s[i]) }

  /** Texts of part characters have no space at either end to trim. */
  lemma NothingToTrim(s: string)
    requires PartChars(s)
    ensures TrimSpace(s) == s && ',' !in s
  {
    TrimSpaceId(s);
  }

  lemma NumText(n: Num)
    requires n.digits != "" && AllDigits(n.digits)
    ensures PrintNum(n) != "" && forall i | 0 <= i < |PrintNum(n)| :: NumChar(PrintNum(n)[i])
    ensures IsInt64(Value(n.digits)) ==> Atoi(PrintNum(n)) == Some(Value(n.digits))
  {
    hide Value;
    var s := PrintNum(n);
    if n.plus { assert s[1..] == n.digits; } else { assert s == n.digits; }
  }

  lemma PrintNumParses(n: Num, min: int, max: int)
    requires GoodNum(n, min, max) && 0 <= min && max <= MAX_INT64
    ensures Atoi(PrintNum(n)) == Some(Value(n.digits)) && ParseNumber(PrintNum(n), min, max) == Some(Value(n.digits))
    ensures forall i | 0 <= i < |PrintNum(n)| :: NumChar(PrintNum(n)[i])
    ensures PrintNum(n) != ""
  {
    hide Atoi, Value, TrimSpace;
    NumText(n);
    assert PartChars(PrintNum(n));
    NothingToTrim(PrintNum(n));
  }

  lemma PrintRangeParses(r: Range, min: int, max: int)
    requires GoodRange(r, min, max) && 0 <= min <= max <= MAX_BOUND
    ensures ParseRange(PrintRange(r), min, max) == Some((Low(Part(r, None), min, max), High(Part(r, None), min, max)))
    ensures forall i | 0 <= i < |PrintRange(r)| :: RangeChar(PrintRange(r)[i])
    ensures PrintRange(r) != "" && (PrintRange(r) == "*" ==> r == Star)
  {
    hide Atoi, TrimSpace, Value, ParseNumber;
    match r
    case Star =>
    case One(n) =>
      PrintNumParses(n, min, max);
      assert NumChar(PrintNum(n)[0]);
    case Span(lo, hi) =>
      PrintNumParses(lo, min, max);
      PrintNumParses(hi, min, max);
      SplitCons(PrintNum(lo), '-', PrintNum(hi));
      SplitOne(PrintNum(hi), '-');
      assert PrintRange(r)[|PrintNum(lo)|] == '-';
      assert Split(PrintRange(r), '-') == [PrintNum(lo), PrintNum(hi)];
  }

  lemma PartText(p: Part, min: int, max: int)
    requires GoodPart(p, min, max) && 0 <= min <= max <= MAX_BOUND
    ensures PartChars(PrintPart(p))
    ensures '/' in PrintPart(p) <==> p.step.Some?
    ensures PrintPart(p) == "*" ==> p == Part(Star, None)
    ensures p.step.Some? ==> Split(PrintPart(p), '/') == [PrintRange(p.range), PrintNum(p.step.value)]
    ensures p.step.None? ==> PrintPart(p) == PrintRange(p.range)
  {
    hide Atoi, Value, ParseRange, ParseNumber, PrintRange, PrintNum;
    PrintRangeParses(p.range, min, max);
    var text, range := PrintPart(p), PrintRange(p.range);
    if p.step.Some? {
      var step := PrintNum(p.step.value);
      PrintNumParses(p.step.value, 1, MAX_INT64);
      SplitCons(range, '/', step);
      SplitOne(step, '/');
      assert text == range + ['/'] + step && text[|range|] == '/';
    } else {
      assert text == range;
    }
  }

  lemma PrintPartParses(p: Part, min: int, max: int)
    requires GoodPart(p, min, max) && 0 <= min <= max <= MAX_BOUND
    ensures ParsePart(PrintPart(p), min, max) == Some(StepFrom(Low(p, min, max), High(p, min, max), Step(p, min, max)))
  {
    hide Atoi, Value, ParseRange, ParseNumber, TrimSpace, StepFrom, Split, PrintNum, PrintRange, PrintPart, PartChars;
    PartText(p, min, max);
    NothingToTrim(PrintPart(p));
    PrintRangeParses(p.range, min, max);
    if p.step.Some? { PrintNumParses(p.step.value, 1, MAX_INT64); }
  }

  // ---------------------------------------------------------------- the value sets

  /** What the parser's loops visit for a list of parts. */
  function Visits(parts: seq<Part>, min: int, max: int): set<int>
    requires (forall p | p in parts :: GoodPart(p, min, max)) && 0 <= min <= max <= MAX_BOUND
  {
    if parts == [] then {}
    else
      var last := parts[|parts| - 1];
      Visits(parts[..|parts| - 1], min, max) + StepFrom(Low(last, min, max), High(last, min, max), Step(last, min, max))
  }

  function FieldOf(s: Syntax, min: int, max: int): Field
    requires Good(s, min, max) && 0 <= min <= max <= MAX_BOUND
  {
    if s.Any? then Field(true, {}) else Field(false, Visits(s.parts, min, max))
  }

  lemma {:induction false} VisitsEach(parts: seq<Part>, min: int, max: int)
    requires (forall p | p in parts :: GoodPart(p, min, max)) && 0 <= min <= max <= MAX_BOUND
    ensures forall v :: v in Visits(parts, min, max) <==>
              exists p | p in parts :: v in StepFrom(Low(p, min, max), High(p, min, max), Step(p, min, max))
  {
    if parts != [] {
      var init, last := parts[..|parts| - 1], parts[|parts| - 1];
      VisitsEach(init, min, max);
      assert forall p :: p in parts <==> p in init || p == last;
    }
  }

  lemma VisitsNonempty(parts: seq<Part>, min: int, max: int)
    requires parts != [] && (forall p | p in parts :: GoodPart(p, min, max)) && 0 <= min <= max <= MAX_BOUND
    ensures Visits(parts, min, max) != {}
  {
    var p := parts[|parts| - 1];
    assert Low(p, min, max) in StepFrom(Low(p, min, max), High(p, min, max), Step(p, min, max));
  }

  lemma UnwrappedValues(parts: seq<Part>, min: int, max: int)
    requires (forall p | p in parts :: GoodPart(p, min, max)) && 0 <= min <= max <= MAX_BOUND
    requires forall p | p in parts :: NoWrap(Low(p, min, max), Step(p, min, max))
    ensures forall v :: v in Visits(parts, min, max) <==> Denoted(v, parts, min, max)
  {
    VisitsEach(parts, min, max);
    forall p | p in parts
      ensures forall v :: v in StepFrom(Low(p, min, max), High(p, min, max), Step(p, min, max)) <==> InPart(v, p, min, max)
    {
      StepFromIsProgression(Low(p, min, max), High(p, min, max), Step(p, min, max));
    }
    hide Visits, StepFrom, Low, High, Step, GoodPart, InPart;
  }

  lemma WrappedValue(parts: seq<Part>, p: Part, min: int, max: int)
    requires (forall p | p in parts :: GoodPart(p, min, max)) && 0 <= min <= max <= MAX_BOUND
    requires p in parts && !NoWrap(Low(p, min, max), Step(p, min, max))
    ensures exists v | v in Visits(parts, min, max) :: v < 0
  {
    VisitsEach(parts, min, max);
    StepFromWraps(Low(p, min, max), High(p, min, max), Step(p, min, max));
    var v :| v in StepFrom(Low(p, min, max), High(p, min, max), Step(p, min, max)) && v < 0;
    assert v in Visits(parts, min, max);
  }

  lemma DenotedInBounds(v: int, parts: seq<Part>, min: int, max: int)
    requires (forall p | p in parts :: GoodPart(p, min, max)) && 0 <= min <= max <= MAX_BOUND
    requires Denoted(v, parts, min, max)
    ensures min <= v <= max
  {}

  /** The value set is nonempty. It is the union of the denoted progressions, and lies within the
      bounds, exactly when no part's counter wraps. */
  lemma ValuesAreTheDenotedOnes(s: Syntax, min: int, max: int)
    requires Good(s, min, max) && s.Parts? && 0 <= min <= max <= MAX_BOUND
    ensures FieldOf(s, min, max).values != {}
    ensures NoneWraps(s, min, max) <==> forall v :: v in FieldOf(s, min, max).values <==> Denoted(v, s.parts, min, max)
    ensures NoneWraps(s, min, max) <==> forall v | v in FieldOf(s, min, max).values :: min <= v <= max
  {
    VisitsNonempty(s.parts, min, max);
    if NoneWraps(s, min, max) {
      UnwrappedValues(s.parts, min, max);
      forall v | v in Visits(s.parts, min, max) ensures min <= v <= max { DenotedInBounds(v, s.parts, min, max); }
    } else {
      var p :| p in s.parts && !NoWrap(Low(p, min, max), Step(p, min, max));
      WrappedValue(s.parts, p, min, max);
      var v :| v in Visits(s.parts, min, max) && v < 0;
      if Denoted(v, s.parts, min, max) { DenotedInBounds(v, s.parts, min, max); }
      assert v in FieldOf(s, min, max).values && !(min <= v <= max);
    }
  }

  // ---------------------------------------------------------------- the parser accepts exactly the language

  lemma {:induction false} PrintedPartsParse(parts: seq<Part>, min: int, max: int)
    requires (forall p | p in parts :: GoodPart(p, min, max)) && 0 <= min <= max <= MAX_BOUND
    ensures ParseParts(PrintParts(parts), min, max) == Some(Visits(parts, min, max))
  {
    if parts != [] {
      var init, last := parts[..|parts| - 1], parts[|parts| - 1];
      PrintedPartsParse(init, min, max);
      PrintPartParses(last, min, max);
      assert PrintParts(parts)[..|parts| - 1] == PrintParts(init);
      hide PrintPart, ParsePart, StepFrom;
    }
  }

  /** A joined list has no space at either end. */
  lemma {:induction false} JoinedText(texts: seq<string>)
    requires texts != [] && forall t | t in texts :: PartChars(t)
    ensures var s := Join(texts, ","); s != "" && !IsSpace(s[0]) && !IsSpace(s[|s| - 1])
  {
    assert texts[0] in texts;
    if |texts| > 1 { JoinedText(texts[1..]); }
  }

  lemma TextsArePartChars(parts: seq<Part>, min: int, max: int)
    requires (forall p | p in parts :: GoodPart(p, min, max)) && 0 <= min <= max <= MAX_BOUND
    ensures forall t | t in PrintParts(parts) :: PartChars(t) && ',' !in t
  {
    hide PartChars, GoodPart, PrintPart;
    forall t | t in PrintParts(parts) ensures PartChars(t) && ',' !in t {
      var i :| 0 <= i < |parts| && t == PrintPart(parts[i]);
      PartText(parts[i], min, max);
      NothingToTrim(t);
    }
  }

  lemma PrintedShape(parts: seq<Part>, min: int, max: int)
    requires Good(Parts(parts), min, max) && 0 <= min <= max <= MAX_BOUND
    ensures TrimSpace(Print(Parts(parts))) == Print(Parts(parts)) != "*"
    ensures Split(Print(Parts(parts)), ',') == PrintParts(parts)
  {
    hide PrintPart, GoodPart, TrimSpace, PartChars;
    var texts := PrintParts(parts);
    TextsArePartChars(parts, min, max);
    JoinedText(texts);
    SplitJoin(texts, ',');
    TrimSpaceId(Print(Parts(parts)));
    if Print(Parts(parts)) == "*" {
      SplitOne("*", ',');
      PartText(parts[0], min, max);
    }
  }

  /** Every well-formed field text is accepted, with the values its loops visit. */
  lemma PrintedFieldParses(s: Syntax, min: int, max: int)
    requires Good(s, min, max) && 0 <= min <= max <= MAX_BOUND
    ensures ParseField(Print(s), min, max) == Some(FieldOf(s, min, max))
  {
    if s.Parts? {
      hide TrimSpace, Split, Print, ParseParts, Visits;
      PrintedShape(s.parts, min, max);
      PrintedPartsParse(s.parts, min, max);
      ValuesAreTheDenotedOnes(s, min, max);
    }
  }

  /** Cutting a text without white space. */
  lemma Pieces(text: string, sep: char)
    requires NoSpace(text)
    ensures forall t | t in Split(text, sep) :: NoSpace(t) && sep !in t
    ensures |Split(text, sep)| == 2 ==> text == Split(text, sep)[0] + [sep] + Split(text, sep)[1]
  {
    var pieces := Split(text, sep);
    JoinSplit(text, sep);
    SplitParts(text, sep);
    forall t | t in pieces ensures NoSpace(t) && sep !in t {
      assert forall i | 0 <= i < |t| :: t[i] in text;
    }
    if |pieces| == 2 { assert Join(pieces[1..], [sep]) == pieces[1]; }
  }

  lemma ReadNum(text: string, min: int, max: int) returns (n: Num)
    requires NoSpace(text) && '-' !in text && 0 <= min && ParseNumber(text, min, max).Some?
    ensures PrintNum(n) == text && GoodNum(n, min, max) && Some(Value(n.digits)) == ParseNumber(text, min, max)
  {
    TrimSpaceId(text);
    if text[0] == '+' {
      n := Num(true, text[1..]);
      assert text == "+" + text[1..];
    } else {
      n := Num(false, text);
    }
  }

  lemma ReadRange(text: string, min: int, max: int) returns (r: Range)
    requires NoSpace(text) && 0 <= min <= max <= MAX_BOUND && ParseRange(text, min, max).Some?
    ensures PrintRange(r) == text && GoodRange(r, min, max)
    ensures ParseRange(text, min, max) == Some((Low(Part(r, None), min, max), High(Part(r, None), min, max)))
  {
    if text == "*" {
      r := Star;
    } else if '-' in text {
      var pieces := Split(text, '-');
      Pieces(text, '-');
      assert pieces[0] in pieces && pieces[1] in pieces;
      var lo := ReadNum(pieces[0], min, max);
      var hi := ReadNum(pieces[1], min, max);
      r := Span(lo, hi);
    } else {
      var n := ReadNum(text, min, max);
      r := One(n);
    }
  }

  lemma ReadStep(text: string) returns (n: Num)
    requires Atoi(text).Some? && Atoi(text).value > 0
    ensures PrintNum(n) == text && GoodNum(n, 1, MAX_INT64) && Some(Value(n.digits)) == Atoi(text)
  {
    if text[0] == '+' {
      n := Num(true, text[1..]);
      assert text == "+" + text[1..];
    } else {
      n := Num(false, text);
    }
  }

  lemma ReadPart(text: string, min: int, max: int) returns (p: Part)
    requires NoSpace(text) && 0 <= min <= max <= MAX_BOUND && ParsePart(text, min, max).Some?
    ensures PrintPart(p) == text && GoodPart(p, min, max)
  {
    hide TrimSpace, Atoi, ParseRange, StepFrom, GoodRange, PrintRange, Split;
    TrimSpaceId(text);
    if '/' in text {
      var pieces := Split(text, '/');
      TwoPieces(text, '/');
      Pieces(text, '/');
      assert pieces[0] in pieces;
      var range := ReadRange(pieces[0], min, max);
      var step := ReadStep(pieces[1]);
      p := Part(range, Some(step));
    } else {
      var range := ReadRange(text, min, max);
      p := Part(range, None);
    }
  }

  lemma {:induction false} ReadParts(texts: seq<string>, min: int, max: int) returns (parts: seq<Part>)
    requires (forall t | t in texts :: NoSpace(t)) && 0 <= min <= max <= MAX_BOUND && ParseParts(texts, min, max).Some?
    ensures PrintParts(parts) == texts && forall p | p in parts :: GoodPart(p, min, max)
  {
    if texts == [] {
      parts := [];
    } else {
      hide ParsePart, PrintPart, GoodPart, NoSpace;
      assert texts == texts[..|texts| - 1] + [texts[|texts| - 1]];
      var init := ReadParts(texts[..|texts| - 1], min, max);
      var last := ReadPart(texts[|texts| - 1], min, max);
      parts := init + [last];
      assert parts[..|parts| - 1] == init;
    }
  }

  lemma ReadList(text: string, min: int, max: int) returns (parts: seq<Part>)
    requires NoSpace(text) && text != "*" && 0 <= min <= max <= MAX_BOUND && ParseParts(Split(text, ','), min, max).Some?
    ensures Good(Parts(parts), min, max) && Print(Parts(parts)) == text
  {
    hide TrimSpace, NoSpace, ParseParts, GoodPart;
    JoinSplit(text, ',');
    Pieces(text, ',');
    parts := ReadParts(Split(text, ','), min, max);
    assert parts == [Part(Star, None)] ==> Join(PrintParts(parts), ",") == "*";
  }

  /** Whatever is accepted is a well-formed field text (of a text without white space, as NextRun splits it). */
  lemma AcceptedFieldIsPrinted(text: string, min: int, max: int) returns (s: Syntax)
    requires NoSpace(text) && 0 <= min <= max <= MAX_BOUND && ParseField(text, min, max).Some?
    ensures Good(s, min, max) && Print(s) == text && ParseField(text, min, max) == Some(FieldOf(s, min, max))
  {
    TrimSpaceId(text);
    if text == "*" {
      s := Any;
    } else {
      hide TrimSpace, NoSpace, ParseParts, Print, Good, FieldOf, Split;
      var parts := ReadList(text, min, max);
      s := Parts(parts);
      PrintedFieldParses(s, min, max);
    }
  }

  // ---------------------------------------------------------------- weekdays

  /** Weekday 7 is Sunday too. */
  function FoldSunday(f: Field): Field {
    if 7 in f.values then f.(values := f.values - {7} + {0}) else f
  }

  /** Folding leaves exactly the image modulo 7 if and only if the field holds numbers from 0 to 7 only, as every field
      does whose counters do not wrap. */
  lemma FoldIsModuloSeven(f: Field)
    ensures FoldSunday(f).values == (set v | v in f.values :: v % 7) <==> forall v | v in f.values :: 0 <= v <= 7
    ensures FoldSunday(f).any == f.any && (f.values != {} ==> FoldSunday(f).values != {})
  {
    var folded, image := FoldSunday(f).values, set v | v in f.values :: v % 7;
    if forall v | v in f.values :: 0 <= v <= 7 {
      forall d ensures d in folded <==> d in image {
        if d in folded {
          if d == 0 && 0 !in f.values { assert 7 in f.values && 7 % 7 == 0; } else { assert d in f.values && d % 7 == d; }
        }
      }
    } else {
      var v :| v in f.values && !(0 <= v <= 7);
      assert v in folded && forall d | d in image :: 0 <= d < 7;
    }
    if f.values != {} {
      var v :| v in f.values;
      assert (if v == 7 then 0 else v) in folded;
    }
  }
}
