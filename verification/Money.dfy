/** Printing an amount of money and reading one back. */
module Money {
  import opened Wrappers
  import opened GoText

  // ---------------------------------------------------------------- reading

  /** strings.NewReplacer: dots, commas and blanks go away. */
  function Strip(s: string): string {
    if s == "" then ""
    else if s[0] in {'.', ',', ' '} then Strip(s[1..])
    else [s[0]] + Strip(s[1..])
  }

  predicate EndsIn(s: string, upper: char, lower: char) { s != "" && s[|s| - 1] in {upper, lower} }

  function ParseHumanInt(text: string): int {
    var value := TrimSpace(text);
    var multiplier := if EndsIn(value, 'K', 'k') then 1000 else if EndsIn(value, 'M', 'm') then 1_000_000 else 1;
    var digits := if multiplier == 1 then value else value[..|value| - 1];
    var parsed := Atoi(Strip(digits));
    if parsed.None? then 0 else Wrap64(parsed.value * multiplier)
  }

  // ---------------------------------------------------------------- printing

  /** Groups of three from the end. */
  function Groups(raw: string): seq<string> {
    if |raw| <= 3 then [raw] else Groups(raw[..|raw| - 3]) + [raw[|raw| - 3..]]
  }

  /** Go's `-n` for a 64-bit int. */
  function Negate64(n: int): int { Wrap64(-n) }

  function Magnitude(amount: int): int { if amount < 0 then Negate64(amount) else amount }

  function Sign(amount: int): string { if amount < 0 then "-" else "" }

  /** The printed text without its " VND". */
  function Number(amount: int): string { Sign(amount) + Join(Groups(Itoa(Magnitude(amount))), ".") }

  function FormatVND(amount: int): string { Number(amount) + " VND" }

  lemma GroupsStep(raw: string, chunks: seq<string>)
    ensures |raw| > 3 ==> Groups(raw) + chunks == Groups(raw[..|raw| - 3]) + ([raw[|raw| - 3..]] + chunks)
    ensures |raw| <= 3 ==> Groups(raw) + chunks == [raw] + chunks
  {}

  method Format(amount: int) returns (text: string)
    requires IsInt64(amount)
    ensures text == FormatVND(amount)
  {
    hide Groups, Join, Itoa, Wrap64;
    var sign, n := "", amount;
    if n < 0 {
      sign := "-";
      n := Negate64(n);
    }
    var raw := Itoa(n);
    var chunks: seq<string> := [];
    assert Groups(raw) + chunks == Groups(raw);
    while |raw| > 3
      invariant Groups(raw) + chunks == Groups(Itoa(n))
    {
      GroupsStep(raw, chunks);
      chunks := [raw[|raw| - 3..]] + chunks;
      raw := raw[..|raw| - 3];
    }
    GroupsStep(raw, chunks);
    chunks := [raw] + chunks;
    text := sign + Join(chunks, ".") + " VND";
  }

  // ---------------------------------------------------------------- the groups

  lemma {:induction false} GroupSizes(raw: string)
    requires raw != ""
    ensures var g := Groups(raw);
            |g| > 0 && 1 <= |g[0]| <= 3 && forall k | 0 < k < |g| :: |g[k]| == 3
  {
    if |raw| > 3 { GroupSizes(raw[..|raw| - 3]); }
  }

  predicate Plain(s: string) { forall i | 0 <= i < |s| :: s[i] !in {'.', ',', ' '} }

  lemma {:induction false} StripConcat(a: string, b: string)
    ensures Strip(a + b) == Strip(a) + Strip(b)
    decreases |a|
  {
    if a == "" {
      assert a + b == b;
    } else {
      assert (a + b)[1..] == a[1..] + b;
      StripConcat(a[1..], b);
      if a[0] !in {'.', ',', ' '} { assert [a[0]] + (Strip(a[1..]) + Strip(b)) == [a[0]] + Strip(a[1..]) + Strip(b); }
    }
  }

  lemma {:induction false} StripPlain(s: string)
    requires Plain(s)
    ensures Strip(s) == s
  {
    if s != "" {
      StripPlain(s[1..]);
      assert s == [s[0]] + s[1..];
    }
  }

  lemma {:induction false} JoinSnoc(parts: seq<string>, last: string, sep: string)
    requires |parts| > 0
    ensures Join(parts + [last], sep) == Join(parts, sep) + sep + last
    decreases |parts|
  {
    if |parts| == 1 {
      assert (parts + [last])[1..] == [last];
    } else {
      assert (parts + [last])[1..] == parts[1..] + [last];
      JoinSnoc(parts[1..], last, sep);
      assert parts[0] + sep + (Join(parts[1..], sep) + sep + last) == (parts[0] + sep + Join(parts[1..], sep)) + sep + last;
    }
  }

  lemma StripDot(a: string, b: string)
    ensures Strip(a + "." + b) == Strip(a) + Strip(b)
  {
    assert Strip(".") == "";
    hide Strip;
    StripConcat(a + ".", b);
    StripConcat(a, ".");
    assert Strip(a) + "" == Strip(a);
  }

  /** Without its dots, the grouped text is the digits. */
  lemma {:induction false} GroupsStrip(raw: string)
    requires Plain(raw)
    ensures |Groups(raw)| > 0 && Strip(Join(Groups(raw), ".")) == raw
  {
    if |raw| <= 3 {
      StripPlain(raw);
    } else {
      hide Join, Strip;
      var front, last := raw[..|raw| - 3], raw[|raw| - 3..];
      GroupsStrip(front);
      JoinSnoc(Groups(front), last, ".");
      StripDot(Join(Groups(front), "."), last);
      StripPlain(last);
      assert raw == front + last;
    }
  }

  lemma {:induction false} GroupsEnds(raw: string)
    requires raw != ""
    ensures var joined := Join(Groups(raw), ".");
            joined != "" && joined[0] == raw[0] && joined[|joined| - 1] == raw[|raw| - 1]
  {
    if |raw| > 3 {
      var front, last := raw[..|raw| - 3], raw[|raw| - 3..];
      GroupsEnds(front);
      GroupSizes(front);
      JoinSnoc(Groups(front), last, ".");
    }
  }

  // ---------------------------------------------------------------- round trip

  lemma ItoaShape(n: int)
    ensures var s := Itoa(n);
            Plain(s) && s != "" && (s[0] == '-' || IsDigit(s[0])) && IsDigit(s[|s| - 1])
  {
    hide Digits;
    var d := Digits(if n < 0 then -n else n);
    assert n < 0 ==> Itoa(n) == "-" + d;
  }

  lemma NumberShape(amount: int)
    ensures var s := Number(amount); s != "" && (s[0] == '-' || IsDigit(s[0])) && IsDigit(s[|s| - 1])
    ensures Strip(Number(amount)) == Sign(amount) + Itoa(Magnitude(amount))
  {
    assert Strip("-") == "-" && Strip("") == "";
    hide Itoa, Magnitude, Groups, Strip, Join;
    var raw := Itoa(Magnitude(amount));
    ItoaShape(Magnitude(amount));
    GroupsEnds(raw);
    GroupsStrip(raw);
    StripConcat(Sign(amount), Join(Groups(raw), "."));
  }

  lemma ParsePlain(text: string)
    requires text != "" && (text[0] == '-' || IsDigit(text[0])) && IsDigit(text[|text| - 1])
    ensures ParseHumanInt(text) == match Atoi(Strip(text)) case None => 0 case Some(n) => n
  {
    hide Atoi, Strip, TrimSpace;
    TrimSpaceId(text);
  }

  /** A final k or m, of either case, multiplies by a thousand or a million. */
  lemma SuffixMultiplies(amount: int, suffix: char)
    requires IsInt64(amount) && amount != MIN_INT64 && suffix in {'k', 'K', 'm', 'M'}
    ensures ParseHumanInt(Number(amount) + [suffix]) == Wrap64(amount * if suffix in {'k', 'K'} then 1000 else 1_000_000)
  {
    hide Atoi, Itoa, Strip, TrimSpace, Number, Magnitude, Wrap64;
    NumberShape(amount);
    SignedDigits(amount);
    AtoiItoa(amount);
    var text := Number(amount) + [suffix];
    TrimSpaceId(text);
    assert text[..|text| - 1] == Number(amount);
  }

  lemma ParseDoubleSign()
    ensures Atoi("-" + Itoa(MIN_INT64)) == None
  {
    hide Digits, Value;
    var s := "-" + Itoa(MIN_INT64);
    assert s[1..] == Itoa(MIN_INT64) && s[1..][0] == '-';
  }

  lemma LeastMagnitude()
    ensures Magnitude(MIN_INT64) == MIN_INT64
  {}

  lemma SignedDigits(amount: int)
    requires IsInt64(amount) && amount != MIN_INT64
    ensures Sign(amount) + Itoa(Magnitude(amount)) == Itoa(amount)
  {
    hide Digits;
    assert amount >= 0 ==> "" + Itoa(amount) == Itoa(amount);
  }

  /** The text is `plain` with dots, commas and blanks put in anywhere. */
  predicate Spread(text: string, plain: string)
    decreases |text|
  {
    if text == "" then plain == ""
    else if text[0] == '.' || text[0] == ',' || text[0] == ' ' then Spread(text[1..], plain)
    else plain != "" && plain[0] == text[0] && Spread(text[1..], plain[1..])
  }

  lemma {:induction false} StripSpread(text: string, plain: string)
    ensures Strip(text) == plain <==> Spread(text, plain)
    decreases |text|
  {
    if text != "" {
      if text[0] in {'.', ',', ' '} {
        StripSpread(text[1..], plain);
      } else if plain != "" {
        StripSpread(text[1..], plain[1..]);
        assert plain == [plain[0]] + plain[1..];
        assert Strip(text)[1..] == Strip(text[1..]);
      }
    }
  }

  lemma {:induction false} StripKeeps(text: string, c: char)
    requires c in text && c !in {'.', ',', ' '}
    ensures c in Strip(text)
    decreases |text|
  {
    assert text == [text[0]] + text[1..];
    if text[0] != c { StripKeeps(text[1..], c); }
  }

  predicate Ends(text: string) { text != "" && !IsSpace(text[0]) && !IsSpace(text[|text| - 1]) }

  lemma NoSuffix(text: string, n: int)
    requires Spread(text, Itoa(n)) && text != ""
    ensures text[|text| - 1] !in {'k', 'K', 'm', 'M'}
  {
    hide Itoa;
    StripSpread(text, Itoa(n));
    ItoaChars(n);
    if text[|text| - 1] in {'k', 'K', 'm', 'M'} { StripKeeps(text, text[|text| - 1]); }
  }

  /** A number is read through white space around it and dots, commas and blanks in it; a final k or m of either case
      multiplies it, in 64 bits, and what is no number is 0. */
  lemma ReadsThroughSeparators(text: string, n: int, before: string, after: string)
    requires IsInt64(n) && Spread(text, Itoa(n)) && Blank(before) && Blank(after) && Ends(text)
    ensures ParseHumanInt(before + (text + after)) == n
  {
    hide Atoi, Itoa, Strip, TrimSpace, Spread, Blank;
    TrimPadding(before, text, after);
    StripSpread(text, Itoa(n));
    AtoiItoa(n);
    NoSuffix(text, n);
  }

  lemma ItoaChars(n: int)
    ensures forall c | c in Itoa(n) :: c == '-' || IsDigit(c)
  {
    hide Digits;
    var d := Digits(if n < 0 then -n else n);
    assert n < 0 ==> Itoa(n) == "-" + d;
  }

  /** The same before a final k or m. */
  lemma ReadsSuffix(text: string, suffix: char, n: int, before: string, after: string)
    requires IsInt64(n) && Spread(text, Itoa(n)) && Blank(before) && Blank(after) && text != "" && !IsSpace(text[0])
    requires suffix in {'k', 'K', 'm', 'M'}
    ensures ParseHumanInt(before + (text + [suffix] + after)) == Wrap64(n * if suffix in {'k', 'K'} then 1000 else 1_000_000)
  {
    var value := text + [suffix];
    TrimPadding(before, value, after);
    StripSpread(text, Itoa(n));
    AtoiItoa(n);
    assert value[..|value| - 1] == text;
    hide Atoi, Itoa, Strip, TrimSpace, Spread, Wrap64;
  }

  /** A text with any other character in it is no number. */
  lemma NoNumberIsZero(text: string, c: char)
    requires Ends(text) && text[|text| - 1] !in {'k', 'K', 'm', 'M'}
    requires c in text && !IsDigit(c) && c !in {'+', '-', '.', ',', ' '}
    ensures ParseHumanInt(text) == 0
  {
    TrimSpaceId(text);
    StripKeeps(text, c);
    AtoiChars(Strip(text), c);
    hide Atoi, Strip, TrimSpace;
  }

  lemma AtoiChars(s: string, c: char)
    requires c in s && !IsDigit(c) && c !in {'+', '-'}
    ensures Atoi(s).None?
  {
    if s[0] == '-' || s[0] == '+' { assert s == [s[0]] + s[1..]; }
  }

  /** strings.TrimSuffix(text, " VND") */
  function WithoutVND(text: string): string { if HasSuffix(text, " VND") then text[..|text| - 4] else text }

  /** Reading what was printed gives the amount back exactly when it is not the least 64-bit integer, whose negation
      overflows: it is printed with two signs and read as 0. */
  lemma RoundTripExactly(amount: int)
    requires IsInt64(amount)
    ensures ParseHumanInt(WithoutVND(FormatVND(amount))) == amount <==> amount != MIN_INT64
    ensures ParseHumanInt(WithoutVND(FormatVND(MIN_INT64))) == 0
  {
    hide ParseHumanInt, Number, Atoi, Itoa, Strip, Magnitude;
    ParsePrinted(MIN_INT64);
    LeastMagnitude();
    ParseDoubleSign();
    if amount != MIN_INT64 {
      ParsePrinted(amount);
      SignedDigits(amount);
      AtoiItoa(amount);
    }
  }

  lemma ParsePrinted(amount: int)
    ensures ParseHumanInt(WithoutVND(FormatVND(amount)))
            == match Atoi(Sign(amount) + Itoa(Magnitude(amount))) case None => 0 case Some(n) => n
  {
    hide ParseHumanInt, Number, Atoi, Itoa, Strip, Magnitude;
    var n, t := Number(amount), FormatVND(amount);
    assert t == n + " VND";
    assert t[|t| - 4..] == " VND" && t[..|t| - 4] == n;
    NumberShape(amount);
    ParsePlain(n);
  }

  /** The groups of every printed amount but the least: three digits each, one to three in the first. */
  lemma GroupsOfAmount(amount: int)
    requires IsInt64(amount) && amount != MIN_INT64
    ensures var g := Groups(Itoa(Magnitude(amount)));
            && FormatVND(amount) == Sign(amount) + Join(g, ".") + " VND"
            && |g| > 0 && 1 <= |g[0]| <= 3 && (forall k | 0 < k < |g| :: |g[k]| == 3)
            && (forall k | 0 <= k < |g| :: AllDigits(g[k]))
            && Split(Join(g, "."), '.') == g
  {
    hide Digits, Join, Split, Groups, AllDigits;
    var raw := Itoa(Magnitude(amount));
    assert Magnitude(amount) >= 0;
    GroupSizes(raw);
    GroupsAreDigits(raw);
    SplitJoin(Groups(raw), '.');
  }

  lemma {:induction false} GroupsAreDigits(raw: string)
    requires AllDigits(raw)
    ensures forall k | 0 <= k < |Groups(raw)| :: AllDigits(Groups(raw)[k]) && '.' !in Groups(raw)[k]
  {
    if |raw| > 3 { GroupsAreDigits(raw[..|raw| - 3]); }
  }
}
