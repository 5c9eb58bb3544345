/** Label values and label sets in the Prometheus text format, version 0.0.4. */
module Metrics {
  import opened Wrappers
  import opened GoText

  // ---------------------------------------------------------------- escaping

  /** strings.ReplaceAll for a pattern of one character. */
  function ReplaceAll(s: string, c: char, text: string): string {
    if s == "" then "" else (if s[0] == c then text else [s[0]]) + ReplaceAll(s[1..], c, text)
  }

  function EscapeLabel(value: string): string {
    ReplaceAll(ReplaceAll(ReplaceAll(value, '\\', "\\\\"), '\n', "\\n"), '"', "\\\"")
  }

  /** One pass: each character is escaped by itself. */
  function EscapeChar(c: char): string {
    if c == '\\' then "\\\\" else if c == '\n' then "\\n" else if c == '"' then "\\\"" else [c]
  }

  function Escape(value: string): string {
    if value == "" then "" else EscapeChar(value[0]) + Escape(value[1..])
  }

  lemma {:induction false} ReplaceConcat(a: string, b: string, c: char, text: string)
    ensures ReplaceAll(a + b, c, text) == ReplaceAll(a, c, text) + ReplaceAll(b, c, text)
    decreases |a|
  {
    if a == "" {
      assert a + b == b;
    } else {
      assert (a + b)[1..] == a[1..] + b;
      ReplaceConcat(a[1..], b, c, text);
      var first := if a[0] == c then text else [a[0]];
      assert first + (ReplaceAll(a[1..], c, text) + ReplaceAll(b, c, text)) == (first + ReplaceAll(a[1..], c, text)) + ReplaceAll(b, c, text);
    }
  }

  lemma ReplaceOne(x: char, c: char, text: string)
    ensures ReplaceAll([x], c, text) == if x == c then text else [x]
  {
    assert [x][1..] == "";
  }

  lemma ReplaceTwo(x: char, y: char, c: char, text: string)
    ensures ReplaceAll([x, y], c, text) == (if x == c then text else [x]) + (if y == c then text else [y])
  {
    ReplaceOne(y, c, text);
    assert [x, y][1..] == [y];
  }

  lemma EscapeLabelChar(c: char)
    ensures EscapeLabel([c]) == EscapeChar(c)
  {
    hide ReplaceAll;
    ReplaceOne(c, '\\', "\\\\");
    if c == '\\' {
      assert "\\\\" == ['\\', '\\'] == ['\\'] + ['\\'];
      ReplaceTwo('\\', '\\', '\n', "\\n");
      ReplaceTwo('\\', '\\', '"', "\\\"");
    } else {
      ReplaceOne(c, '\n', "\\n");
      if c == '\n' { ReplaceTwo('\\', 'n', '"', "\\\""); } else { ReplaceOne(c, '"', "\\\""); }
    }
  }

  lemma EscapeLabelConcat(a: string, b: string)
    ensures EscapeLabel(a + b) == EscapeLabel(a) + EscapeLabel(b)
  {
    hide ReplaceAll;
    ReplaceConcat(a, b, '\\', "\\\\");
    var a1, b1 := ReplaceAll(a, '\\', "\\\\"), ReplaceAll(b, '\\', "\\\\");
    ReplaceConcat(a1, b1, '\n', "\\n");
    ReplaceConcat(ReplaceAll(a1, '\n', "\\n"), ReplaceAll(b1, '\n', "\\n"), '"', "\\\"");
  }

  /** The three whole-string replacements, in their order, escape each character once. */
  lemma {:induction false} EscapeLabelIsOnePass(value: string)
    ensures EscapeLabel(value) == Escape(value)
  {
    if value != "" {
      EscapeLabelIsOnePass(value[1..]);
      EscapeLabelChar(value[0]);
      hide EscapeLabel;
      EscapeLabelConcat([value[0]], value[1..]);
      assert value == [value[0]] + value[1..];
    }
  }

  /** A backslash, a line feed and a quote become two characters each, wherever they stand, and nothing else changes. */
  lemma EscapesEachCharacter(before: string, c: char, after: string)
    ensures EscapeLabel("") == ""
    ensures EscapeLabel(before + [c] + after)
         == EscapeLabel(before)
            + (if c == '\\' then ['\\', '\\'] else if c == '\n' then ['\\', 'n'] else if c == '\"' then ['\\', '\"'] else [c])
            + EscapeLabel(after)
  {
    EscapeLabelChar(c);
    assert ReplaceAll("", '\\', "\\\\") == "" && ReplaceAll("", '\n', "\\n") == "" && ReplaceAll("", '"', "\\\"") == "";
    assert EscapeLabel("") == "";
    hide EscapeLabel;
    EscapeLabelConcat(before + [c], after);
    EscapeLabelConcat(before, [c]);
  }

  // ---------------------------------------------------------------- reading back

  function Unescaped(c: char): Option<char> {
    if c == '\\' then Some('\\') else if c == 'n' then Some('\n') else if c == '"' then Some('"') else None
  }

  /** A label value up to its closing quote and what follows the quote, as the text format defines it: after a
      backslash comes a backslash, an n or a quote; a bare line feed is not allowed. */
  function ReadValue(s: string): Option<(string, string)>
    decreases |s|
  {
    if s == "" || s[0] == '\n' then None
    else if s[0] == '"' then Some(("", s[1..]))
    else if s[0] != '\\' then Prepend(s[0], ReadValue(s[1..]))
    else if |s| == 1 || Unescaped(s[1]).None? then None
    else Prepend(Unescaped(s[1]).value, ReadValue(s[2..]))
  }

  function Prepend(c: char, r: Option<(string, string)>): Option<(string, string)> {
    if r.None? then None else Some(([c] + r.value.0, r.value.1))
  }

  lemma ReadEscapedChar(c: char, tail: string)
    ensures ReadValue(EscapeChar(c) + tail) == Prepend(c, ReadValue(tail))
  {
    var s := EscapeChar(c) + tail;
    if |EscapeChar(c)| == 1 { assert s[1..] == tail; } else { assert s[2..] == tail; }
  }

  lemma EscapedSplits(value: string, rest: string)
    requires value != ""
    ensures Escape(value) + "\"" + rest == EscapeChar(value[0]) + (Escape(value[1..]) + "\"" + rest)
  {
    hide EscapeChar;
  }

  lemma {:induction false} ReadValueOfEscaped(value: string, rest: string)
    ensures ReadValue(Escape(value) + "\"" + rest) == Some((value, rest))
    decreases |value|
  {
    if value == "" {
      var s := Escape(value) + "\"" + rest;
      assert s == "\"" + rest && s[1..] == rest;
    } else {
      hide ReadValue, EscapeChar, Escape;
      ReadValueOfEscaped(value[1..], rest);
      ReadEscapedChar(value[0], Escape(value[1..]) + "\"" + rest);
      EscapedSplits(value, rest);
      assert value == [value[0]] + value[1..];
    }
  }

  /** Only the escaped value reads as the value: unescaping and escaping are inverse to each other. */
  lemma {:induction false} ReadValueIsEscaped(s: string)
    requires ReadValue(s).Some?
    ensures s == Escape(ReadValue(s).value.0) + "\"" + ReadValue(s).value.1
    decreases |s|
  {
    var v := ReadValue(s).value.0;
    if s[0] == '"' {
      assert s == "\"" + s[1..];
    } else if s[0] != '\\' {
      ReadValueIsEscaped(s[1..]);
      assert v[1..] == ReadValue(s[1..]).value.0;
      assert s == [s[0]] + s[1..];
    } else {
      ReadValueIsEscaped(s[2..]);
      assert v[1..] == ReadValue(s[2..]).value.0;
      assert s == [s[0], s[1]] + s[2..];
    }
  }

  /** A quoted text reads as `value` and `rest` exactly when it is the escaped value, a quote and the rest. */
  lemma UnescapeInvertsExactly(s: string, value: string, rest: string)
    ensures ReadValue(s) == Some((value, rest)) <==> s == EscapeLabel(value) + "\"" + rest
  {
    hide EscapeLabel, Escape, ReadValue;
    EscapeLabelIsOnePass(value);
    ReadValueOfEscaped(value, rest);
    if ReadValue(s).Some? { ReadValueIsEscaped(s); }
  }

  // ---------------------------------------------------------------- no line feed, no unescaped quote

  /** The number of backslashes just before position i. */
  function BackslashesBefore(s: string, i: nat): (n: nat)
    requires i <= |s|
    ensures n <= i
  {
    if i == 0 || s[i - 1] != '\\' then 0 else 1 + BackslashesBefore(s, i - 1)
  }

  predicate Quotable(s: string) {
    forall i | 0 <= i < |s| :: s[i] != '\n' && (s[i] == '"' ==> BackslashesBefore(s, i) % 2 == 1)
  }

  lemma {:induction false} BackslashesConcat(a: string, b: string, i: nat)
    requires i <= |b|
    ensures BackslashesBefore(a + b, |a| + i)
            == if BackslashesBefore(b, i) < i then BackslashesBefore(b, i) else i + BackslashesBefore(a + b, |a|)
    decreases i
  {
    if i > 0 {
      assert (a + b)[|a| + i - 1] == b[i - 1];
      BackslashesConcat(a, b, i - 1);
    }
  }

  lemma BackslashesParity(a: string, b: string, i: nat)
    requires i <= |b| && BackslashesBefore(a + b, |a|) % 2 == 0
    ensures BackslashesBefore(a + b, |a| + i) % 2 == BackslashesBefore(b, i) % 2
  {
    BackslashesConcat(a, b, i);
  }

  lemma BackslashesOfChar(c: char, rest: string)
    ensures BackslashesBefore(EscapeChar(c) + rest, |EscapeChar(c)|) % 2 == 0
    ensures forall i | 0 <= i < |EscapeChar(c)| && EscapeChar(c)[i] == '"' :: BackslashesBefore(EscapeChar(c) + rest, i) == 1
  {
    var s := EscapeChar(c) + rest;
    assert BackslashesBefore(s, 0) == 0;
    assert s[0] == EscapeChar(c)[0];
    if |EscapeChar(c)| == 2 {
      assert s[1] == EscapeChar(c)[1];
      assert BackslashesBefore(s, 1) == 1;
    }
  }

  /** An escaped value has no raw line feed, and each of its quotes follows an odd number of backslashes. */
  lemma {:induction false} EscapedIsQuotable(value: string)
    ensures Quotable(Escape(value))
  {
    if value != "" {
      var e, rest := EscapeChar(value[0]), Escape(value[1..]);
      EscapedIsQuotable(value[1..]);
      BackslashesOfChar(value[0], rest);
      hide BackslashesBefore;
      forall i | 0 <= i < |e + rest|
        ensures (e + rest)[i] != '\n' && ((e + rest)[i] == '"' ==> BackslashesBefore(e + rest, i) % 2 == 1)
      {
        if i >= |e| {
          assert (e + rest)[i] == rest[i - |e|];
          BackslashesParity(e, rest, i - |e|);
        } else {
          assert (e + rest)[i] == e[i];
        }
      }
    }
  }

  lemma EscapeLabelIsQuotable(value: string)
    ensures Quotable(EscapeLabel(value))
  {
    EscapeLabelIsOnePass(value);
    EscapedIsQuotable(value);
  }

  // ---------------------------------------------------------------- label sets

  type Labels = map<string, string>

  function Part(key: string, value: string): string { key + "=\"" + EscapeLabel(value) + "\"" }

  function Parts(labels: Labels, keys: seq<string>): seq<string>
    requires forall k | k in keys :: k in labels
  {
    if keys == [] then [] else [Part(keys[0], labels[keys[0]])] + Parts(labels, keys[1..])
  }

  /** A way to range over the map. */
  ghost predicate Lists(order: seq<string>, labels: Labels) { Distinct(order) && Elements(order) == labels.Keys }

  lemma ListsKeys(order: seq<string>, labels: Labels)
    requires Lists(order, labels)
    ensures Lists(SortStrings(order), labels) && Increasing(SortStrings(order))
    ensures forall k | k in SortStrings(order) :: k in labels
  {
    SortSorts(order);
    var sorted := SortStrings(order);
    forall i, j | 0 <= i < j < |sorted| ensures sorted[i] != sorted[j] { LessTotal(sorted[i], sorted[i]); }
    forall k | k in sorted ensures k in labels { assert k in Elements(sorted); }
  }

  ghost function LabelsText(labels: Labels, order: seq<string>): string
    requires Lists(order, labels)
  {
    ListsKeys(order, labels);
    if |labels| == 0 then "" else "{" + Join(Parts(labels, SortStrings(order)), ",") + "}"
  }

  lemma AnyOrderSameText(labels: Labels, a: seq<string>, b: seq<string>)
    requires Lists(a, labels) && Lists(b, labels)
    ensures LabelsText(labels, a) == LabelsText(labels, b)
  {
    SortCanonical(a, b);
  }

  /** The text of no label, of one and of two. */
  lemma FewLabels(a: string, x: string, b: string, y: string, order: seq<string>)
    ensures order == [] ==> LabelsText(map[], order) == ""
    ensures order == [a] ==> Lists(order, map[a := x]) && LabelsText(map[a := x], order) == "{" + a + "=\"" + EscapeLabel(x) + "\"}"
    ensures order in [[a, b], [b, a]] && Less(a, b) ==>
              && Lists(order, map[a := x, b := y])
              && LabelsText(map[a := x, b := y], order) == "{" + a + "=\"" + EscapeLabel(x) + "\"," + b + "=\"" + EscapeLabel(y) + "\"}"
  {
    hide EscapeLabel;
    LessTotal(a, b);
    if order == [a] {
      OneLabel(a, x);
    } else if order in [[a, b], [b, a]] && Less(a, b) {
      TwoLabels(a, x, b, y, order);
    }
  }

  lemma OneLabel(a: string, x: string)
    ensures Lists([a], map[a := x]) && LabelsText(map[a := x], [a]) == "{" + a + "=\"" + EscapeLabel(x) + "\"}"
  {
    hide EscapeLabel;
    var labels := map[a := x];
    assert a in labels && Elements([a]) == {a};
    assert SortStrings([a]) == [a];
    assert Parts(labels, [a]) == [Part(a, x)] + Parts(labels, []);
  }

  lemma TwoLabels(a: string, x: string, b: string, y: string, order: seq<string>)
    requires order in [[a, b], [b, a]] && Less(a, b)
    ensures Lists(order, map[a := x, b := y])
    ensures LabelsText(map[a := x, b := y], order) == "{" + a + "=\"" + EscapeLabel(x) + "\"," + b + "=\"" + EscapeLabel(y) + "\"}"
  {
    hide EscapeLabel;
    LessTotal(a, b);
    var labels := map[a := x, b := y];
    assert labels.Keys == {a, b} && order[0] in order && order[1] in order;
    assert Elements(order) == {a, b};
    SortSorts(order);
    SortSorts([a, b]);
    assert [a, b][0] == a && [a, b][1] == b && Elements([a, b]) == {a, b};
    IncreasingUnique(SortStrings(order), [a, b]);
    TwoParts(labels, a, x, b, y);
  }

  lemma TwoParts(labels: Labels, a: string, x: string, b: string, y: string)
    requires labels == map[a := x, b := y] && a != b
    ensures "{" + Join(Parts(labels, [a, b]), ",") + "}" == "{" + a + "=\"" + EscapeLabel(x) + "\"," + b + "=\"" + EscapeLabel(y) + "\"}"
  {
    hide EscapeLabel;
    assert [a, b][1..] == [b] && [b][1..] == [];
    assert Parts(labels, [b]) == [Part(b, y)] + Parts(labels, []);
    assert Parts(labels, [a, b]) == [Part(a, x), Part(b, y)];
    assert [Part(a, x), Part(b, y)][1..] == [Part(b, y)];
  }

  lemma ElementsPush(keys: seq<string>, key: string)
    ensures Elements(keys + [key]) == Elements(keys) + {key}
    ensures Distinct(keys) && key !in Elements(keys) ==> Distinct(keys + [key])
  {
    assert forall k | k in keys :: k in Elements(keys);
  }

  /** Go ranges over a map in any order. */
  method Keys(labels: Labels) returns (keys: seq<string>)
    ensures Lists(keys, labels)
  {
    keys := [];
    var todo := labels.Keys;
    while todo != {}
      invariant todo <= labels.Keys
      invariant Distinct(keys) && Elements(keys) == labels.Keys - todo
    {
      var key: string :| key in todo;
      ElementsPush(keys, key);
      keys := keys + [key];
      todo := todo - {key};
    }
  }

  /** The text is the same for every order in which the map can be ranged over. */
  method FormatLabels(labels: Labels) returns (text: string)
    ensures forall order | Lists(order, labels) :: text == LabelsText(labels, order)
  {
    hide Join, SortStrings, Parts, Distinct, Elements, EscapeLabel;
    var keys := Keys(labels);
    ghost var order0 := keys;
    forall order | Lists(order, labels) ensures LabelsText(labels, order) == LabelsText(labels, order0) {
      AnyOrderSameText(labels, order, order0);
    }
    if |labels| == 0 {
      return "";
    }
    ListsKeys(keys, labels);
    keys := SortStrings(keys);
    var parts: seq<string> := [];
    assert keys[0..] == keys && [] + Parts(labels, keys) == Parts(labels, keys);
    for i := 0 to |keys|
      invariant parts + Parts(labels, keys[i..]) == Parts(labels, keys)
    {
      PartsStep(labels, keys[i..], parts);
      assert keys[i..][1..] == keys[i + 1..];
      parts := parts + [keys[i] + "=\"" + EscapeLabel(labels[keys[i]]) + "\""];
    }
    NoParts(labels, parts);
    text := "{" + Join(parts, ",") + "}";
  }

  lemma PartsStep(labels: Labels, keys: seq<string>, parts: seq<string>)
    requires keys != [] && forall k | k in keys :: k in labels
    ensures parts + Parts(labels, keys)
            == (parts + [keys[0] + "=\"" + EscapeLabel(labels[keys[0]]) + "\""]) + Parts(labels, keys[1..])
  {}

  lemma NoParts(labels: Labels, parts: seq<string>)
    ensures parts + Parts(labels, []) == parts
  {}

  // ---------------------------------------------------------------- reading a label set back

  type Pair = (string, string)

  function Pairs(labels: Labels, keys: seq<string>): seq<Pair>
    requires forall k | k in keys :: k in labels
  {
    if keys == [] then [] else [(keys[0], labels[keys[0]])] + Pairs(labels, keys[1..])
  }

  /** A label name up to its equals sign, and what follows the sign. */
  function ReadName(s: string): (r: Option<(string, string)>)
    ensures r.Some? ==> |r.value.1| < |s|
  {
    if s == "" then None
    else if s[0] == '=' then Some(("", s[1..]))
    else
      var rest := ReadName(s[1..]);
      if rest.None? then None else Some(([s[0]] + rest.value.0, rest.value.1))
  }

  lemma {:induction false} ReadValueShrinks(s: string)
    ensures ReadValue(s).Some? ==> |ReadValue(s).value.1| < |s|
    decreases |s|
  {
    if s != "" && s[0] != '"' {
      ReadValueShrinks(s[1..]);
      if |s| > 1 { ReadValueShrinks(s[2..]); }
    }
  }

  /** The pairs of a label set, after its opening brace. */
  function ReadPairs(s: string): Option<seq<Pair>>
    decreases |s|
  {
    var name := ReadName(s);
    if name.None? || name.value.1 == "" || name.value.1[0] != '"' then None
    else
      var value := ReadValue(name.value.1[1..]);
      ReadValueShrinks(name.value.1[1..]);
      if value.None? then None
      else if value.value.1 == "}" then Some([(name.value.0, value.value.0)])
      else if value.value.1 == "" || value.value.1[0] != ',' then None
      else
        var rest := ReadPairs(value.value.1[1..]);
        if rest.None? then None else Some([(name.value.0, value.value.0)] + rest.value)
  }

  lemma {:induction false} ReadNameOf(name: string, rest: string)
    requires '=' !in name
    ensures ReadName(name + "=" + rest) == Some((name, rest))
    decreases |name|
  {
    var s := name + "=" + rest;
    if name == "" {
      assert s == "=" + rest && s[1..] == rest;
    } else {
      assert s[1..] == name[1..] + "=" + rest;
      ReadNameOf(name[1..], rest);
      assert name == [name[0]] + name[1..];
    }
  }

  /** One printed pair, then `after`, is read as the pair. */
  lemma ReadPart(key: string, value: string, after: string)
    requires '=' !in key
    ensures var name := ReadName(Part(key, value) + after);
            && name.Some? && name.value.0 == key && name.value.1 != "" && name.value.1[0] == '"'
            && ReadValue(name.value.1[1..]) == Some((value, after))
  {
    hide EscapeLabel, ReadName, ReadValue;
    var quoted := "\"" + EscapeLabel(value) + "\"" + after;
    assert Part(key, value) + after == key + "=" + quoted;
    ReadNameOf(key, quoted);
    assert quoted[1..] == EscapeLabel(value) + "\"" + after;
    UnescapeInvertsExactly(quoted[1..], value, after);
  }

  lemma {:induction false} ReadPairsOfParts(labels: Labels, keys: seq<string>)
    requires keys != [] && (forall k | k in keys :: k in labels && '=' !in k)
    ensures ReadPairs(Join(Parts(labels, keys), ",") + "}") == Some(Pairs(labels, keys))
    decreases |keys|
  {
    hide Part, ReadName, ReadValue;
    var first, parts := Part(keys[0], labels[keys[0]]), Parts(labels, keys);
    if |keys| == 1 {
      assert Parts(labels, keys[1..]) == [] && Pairs(labels, keys[1..]) == [];
      assert parts == [first] && Pairs(labels, keys) == [(keys[0], labels[keys[0]])];
      ReadPart(keys[0], labels[keys[0]], "}");
    } else {
      ReadPairsOfParts(labels, keys[1..]);
      var more := Join(Parts(labels, keys[1..]), ",") + "}";
      assert parts[1..] == Parts(labels, keys[1..]) && |parts[1..]| > 0;
      assert Join(parts, ",") + "}" == first + ("," + more);
      ReadPart(keys[0], labels[keys[0]], "," + more);
      assert ("," + more)[1..] == more;
    }
  }

  /** The printed label set reads back as its pairs in increasing order of their names. */
  lemma LabelsReadBack(labels: Labels, order: seq<string>)
    requires Lists(order, labels) && labels != map[] && forall k | k in labels :: '=' !in k
    ensures forall k | k in SortStrings(order) :: k in labels
    ensures var text := LabelsText(labels, order);
            text != "" && text[0] == '{' && ReadPairs(text[1..]) == Some(Pairs(labels, SortStrings(order)))
  {
    hide Join, Parts, Pairs, ReadPairs, SortStrings;
    ListsKeys(order, labels);
    var keys := SortStrings(order);
    NoElements(keys);
    ReadPairsOfParts(labels, keys);
    var text := LabelsText(labels, order);
    assert text[1..] == Join(Parts(labels, keys), ",") + "}";
  }

  lemma {:induction false} PairsDetermine(a: Labels, b: Labels, s: seq<string>, t: seq<string>)
    requires (forall k | k in s :: k in a) && (forall k | k in t :: k in b) && Pairs(a, s) == Pairs(b, t)
    ensures s == t && forall k | k in s :: k in b && a[k] == b[k]
    decreases |s|
  {
    if s != [] {
      assert Pairs(a, s)[0] == Pairs(b, t)[0];
      assert Pairs(a, s)[1..] == Pairs(a, s[1..]) && Pairs(b, t)[1..] == Pairs(b, t[1..]);
      PairsDetermine(a, b, s[1..], t[1..]);
      assert s == [s[0]] + s[1..] && t == [t[0]] + t[1..];
    }
  }

  /** Two label sets print the same text exactly when they are equal, so no two time series share a line. */
  lemma LabelsTextIsInjective(a: Labels, b: Labels, s: seq<string>, t: seq<string>)
    requires Lists(s, a) && Lists(t, b)
    requires (forall k | k in a :: '=' !in k) && forall k | k in b :: '=' !in k
    ensures LabelsText(a, s) == LabelsText(b, t) <==> a == b
  {
    hide Pairs, ReadPairs, Join, Parts, SortStrings, Elements;
    if a == b {
      AnyOrderSameText(a, s, t);
    } else {
      if a != map[] { LabelsReadBack(a, s); ListsKeys(s, a); }
      if b != map[] { LabelsReadBack(b, t); ListsKeys(t, b); }
      if a != map[] && b != map[] && Pairs(a, SortStrings(s)) == Pairs(b, SortStrings(t)) {
        PairsDetermine(a, b, SortStrings(s), SortStrings(t));
        SameLabels(a, b, SortStrings(s));
      }
    }
  }

  lemma SameLabels(a: Labels, b: Labels, keys: seq<string>)
    requires Lists(keys, a) && Lists(keys, b) && forall k | k in keys :: k in a && k in b && a[k] == b[k]
    ensures a == b
  {
    assert a.Keys == b.Keys;
    forall k | k in a ensures a[k] == b[k] { assert k in Elements(keys); }
  }
}
