/** The week specification parser, `parse_weeks` (src/main.rs:40-73): a
    comma-separated list of single week numbers and inclusive ranges `a-b`,
    expanded into the week numbers in order. A token that does not parse is
    skipped and reported by one diagnostic line; the program writes those to
    standard error in red, here they are returned in order. */
module Weeks {
  import opened Wrappers
  import opened Text

  /** What one comma-separated token stands for. */
  datatype Token =
    | Week(week: U32)               // a single week number
    | Span(first: U32, last: U32)   // an inclusive range `first-last`
    | BadRange(text: string)        // holds `-`, but one of its two sides does not parse
    | BadNumber(text: string)       // holds no `-` and does not parse

  /** How `parse_weeks` reads one token: it is trimmed; if it holds a `-`, the
      first two `-`-separated segments, each trimmed, are the two ends (further
      segments are ignored); otherwise the whole token is one number. */
  function ReadToken(raw: string): Token {
    var part := Trim(raw);
    if '-' in part then
      SplitAtSeparator(part, '-');
      var pieces := Split(part, '-');
      match (ParseU32(Trim(pieces[0])), ParseU32(Trim(pieces[1])))
      case (Some(first), Some(last)) => Span(first, last)
      case _ => BadRange(part)
    else
      match ParseU32(part)
      case Some(week) => Week(week)
      case None => BadNumber(part)
  }

  /** Rust's `first..=last`: the consecutive numbers from `first` up to `last`,
      ascending, and none at all when `first > last`. */
  function InclusiveRange(first: U32, last: U32): (r: seq<U32>)
    ensures |r| == if first <= last then last - first + 1 else 0
    ensures forall k :: 0 <= k < |r| ==> r[k] == first + k
    decreases last
  {
    if first > last then []
    else if first == last then [first]
    else InclusiveRange(first, last - 1) + [last]
  }

  predicate Malformed(t: Token) {
    t.BadRange? || t.BadNumber?
  }

  /** The weeks one token contributes. */
  function TokenWeeks(t: Token): seq<U32> {
    match t
    case Week(week) => [week]
    case Span(first, last) => InclusiveRange(first, last)
    case _ => []
  }

  /** The diagnostic lines one token produces. */
  function TokenDiagnostics(t: Token): seq<string> {
    match t
    case BadRange(text) => ["Invalid week range: " + text]
    case BadNumber(text) => ["Invalid week number: " + text]
    case _ => []
  }

  /** The tokens of a list of comma-separated pieces, read one by one. */
  function ReadTokens(parts: seq<string>): (tokens: seq<Token>)
    ensures |tokens| == |parts|
    ensures forall k :: 0 <= k < |parts| ==> tokens[k] == ReadToken(parts[k])
  {
    seq(|parts|, k requires 0 <= k < |parts| => ReadToken(parts[k]))
  }

  /** The weeks of a list of tokens, token after token. */
  function TokensWeeks(tokens: seq<Token>): seq<U32> {
    if tokens == [] then []
    else TokensWeeks(tokens[..|tokens| - 1]) + TokenWeeks(tokens[|tokens| - 1])
  }

  /** The diagnostics of a list of tokens, token after token. */
  function TokensDiagnostics(tokens: seq<Token>): seq<string> {
    if tokens == [] then []
    else TokensDiagnostics(tokens[..|tokens| - 1]) + TokenDiagnostics(tokens[|tokens| - 1])
  }

  /** The tokens of a specification, in comma order. */
  function TokensOf(spec: string): seq<Token> {
    ReadTokens(Split(spec, ','))
  }

  /** The weeks a specification stands for. */
  function WeeksOf(spec: string): seq<U32> {
    TokensWeeks(TokensOf(spec))
  }

  /** The diagnostics a specification produces. */
  function DiagnosticsOf(spec: string): seq<string> {
    TokensDiagnostics(TokensOf(spec))
  }

  /** `parse_weeks`, with the lines it writes to standard error returned as
      `diagnostics`. */
  method ParseWeeks(weeksStr: string) returns (weeks: seq<U32>, diagnostics: seq<string>)
    ensures weeks == WeeksOf(weeksStr)
    ensures diagnostics == DiagnosticsOf(weeksStr)
  {
    weeks, diagnostics := [], [];
    var parts := Split(weeksStr, ',');
    ghost var tokens := ReadTokens(parts);
    for i := 0 to |parts|
      invariant weeks == TokensWeeks(tokens[..i])
      invariant diagnostics == TokensDiagnostics(tokens[..i])
    {
      TokensStep(tokens, i);
      ghost var token := ReadToken(parts[i]);
      var part := Trim(parts[i]);
      if '-' in part {
        SplitAtSeparator(part, '-');
        var rangeParts := Split(part, '-');
        var start := ParseU32(Trim(rangeParts[0]));
        var end := ParseU32(Trim(rangeParts[1]));
        if start.Some? && end.Some? {
          assert token == Span(start.value, end.value);
          weeks := PushRange(weeks, start.value, end.value);
        } else {
          assert token == BadRange(part);
          diagnostics := diagnostics + ["Invalid week range: " + part];
        }
      } else {
        match ParseU32(part) {
          case Some(week) =>
            assert token == Week(week);
            weeks := weeks + [week];
          case None =>
            assert token == BadNumber(part);
            diagnostics := diagnostics + ["Invalid week number: " + part];
        }
      }
    }
    assert tokens[..|parts|] == tokens;
  }

  /** The inner loop of `parse_weeks`: every week from `first` up to `last`
      is appended in turn. */
  method PushRange(weeks: seq<U32>, first: U32, last: U32) returns (extended: seq<U32>)
    ensures extended == weeks + InclusiveRange(first, last)
  {
    extended := weeks;
    var week: int := first;
    while week <= last
      invariant first <= week && (first <= last ==> week <= last + 1)
      invariant first > last ==> week == first
      invariant |extended| == |weeks| + (week - first)
      invariant extended[..|weeks|] == weeks
      invariant forall k :: |weeks| <= k < |extended| ==> extended[k] == first + (k - |weeks|)
    {
      extended := extended + [week as U32];
      week := week + 1;
    }
    ghost var range := InclusiveRange(first, last);
    forall k | 0 <= k < |extended| ensures extended[k] == (weeks + range)[k] {
      if k < |weeks| { assert extended[k] == extended[..|weeks|][k]; }
    }
  }

  lemma TokensStep(tokens: seq<Token>, i: nat)
    requires i < |tokens|
    ensures TokensWeeks(tokens[..i + 1]) == TokensWeeks(tokens[..i]) + TokenWeeks(tokens[i])
    ensures TokensDiagnostics(tokens[..i + 1]) == TokensDiagnostics(tokens[..i]) + TokenDiagnostics(tokens[i])
  {
    assert tokens[..i + 1][..i] == tokens[..i];
  }

  // ---------------------------------------------------------------------------
  // Properties
  // ---------------------------------------------------------------------------

  /** The weeks of two token lists one after the other are the weeks of the
      first followed by those of the second. */
  lemma {:induction false} TokensWeeksAppend(p: seq<Token>, q: seq<Token>)
    ensures TokensWeeks(p + q) == TokensWeeks(p) + TokensWeeks(q)
    decreases |q|
  {
    if q == [] {
      assert p + q == p;
    } else {
      var q' := q[..|q| - 1];
      assert (p + q)[..|p + q| - 1] == p + q';
      assert (p + q)[|p + q| - 1] == q[|q| - 1];
      TokensWeeksAppend(p, q');
      SeqAssoc(TokensWeeks(p), TokensWeeks(q'), TokenWeeks(q[|q| - 1]));
    }
  }

  /** Likewise for their diagnostics. */
  lemma {:induction false} TokensDiagnosticsAppend(p: seq<Token>, q: seq<Token>)
    ensures TokensDiagnostics(p + q) == TokensDiagnostics(p) + TokensDiagnostics(q)
    decreases |q|
  {
    if q == [] {
      assert p + q == p;
    } else {
      var q' := q[..|q| - 1];
      assert (p + q)[..|p + q| - 1] == p + q';
      assert (p + q)[|p + q| - 1] == q[|q| - 1];
      TokensDiagnosticsAppend(p, q');
      SeqAssoc(TokensDiagnostics(p), TokensDiagnostics(q'), TokenDiagnostics(q[|q| - 1]));
    }
  }

  lemma ReadTokensAppend(p: seq<string>, q: seq<string>)
    ensures ReadTokens(p + q) == ReadTokens(p) + ReadTokens(q)
  {
    var l, r := ReadTokens(p + q), ReadTokens(p) + ReadTokens(q);
    forall k | 0 <= k < |l| ensures l[k] == r[k] {
      if k < |p| { assert (p + q)[k] == p[k]; } else { assert (p + q)[k] == q[k - |p|]; }
    }
  }

  /** Tokens are read independently: joining two specifications with a comma
      concatenates their tokens, their weeks and their diagnostics. */
  lemma WeeksOfAppend(a: string, b: string)
    ensures TokensOf(a + [','] + b) == TokensOf(a) + TokensOf(b)
    ensures WeeksOf(a + [','] + b) == WeeksOf(a) + WeeksOf(b)
    ensures DiagnosticsOf(a + [','] + b) == DiagnosticsOf(a) + DiagnosticsOf(b)
  {
    SplitAppend(a, b, ',');
    ReadTokensAppend(Split(a, ','), Split(b, ','));
    TokensWeeksAppend(TokensOf(a), TokensOf(b));
    TokensDiagnosticsAppend(TokensOf(a), TokensOf(b));
  }

  /** A specification without a comma is one token. */
  lemma WeeksOfOneToken(raw: string)
    requires ',' !in raw
    ensures TokensOf(raw) == [ReadToken(raw)]
    ensures WeeksOf(raw) == TokenWeeks(ReadToken(raw))
    ensures DiagnosticsOf(raw) == TokenDiagnostics(ReadToken(raw))
  {
    SplitWithoutSeparator(raw, ',');
    var ts := TokensOf(raw);
    assert ts[..0] == [];
  }

  /** A malformed token contributes no week and exactly one diagnostic; a
      well-formed one contributes no diagnostic, and a single number exactly
      one week. */
  lemma TokenOutcome(t: Token)
    ensures Malformed(t) ==> TokenWeeks(t) == [] && |TokenDiagnostics(t)| == 1
    ensures !Malformed(t) ==> TokenDiagnostics(t) == []
    ensures t.Week? ==> TokenWeeks(t) == [t.week]
  {
  }

  /** When every token is malformed, there are no weeks and one diagnostic per token. */
  lemma {:induction false} AllMalformed(tokens: seq<Token>)
    requires forall k :: 0 <= k < |tokens| ==> Malformed(tokens[k])
    ensures TokensWeeks(tokens) == []
    ensures |TokensDiagnostics(tokens)| == |tokens|
    decreases |tokens|
  {
    if tokens != [] {
      var init := tokens[..|tokens| - 1];
      assert forall k :: 0 <= k < |init| ==> init[k] == tokens[k];
      AllMalformed(init);
      TokenOutcome(tokens[|tokens| - 1]);
    }
  }

  /** When no token is malformed, there are no diagnostics. */
  lemma {:induction false} NoneMalformed(tokens: seq<Token>)
    requires forall k :: 0 <= k < |tokens| ==> !Malformed(tokens[k])
    ensures TokensDiagnostics(tokens) == []
    decreases |tokens|
  {
    if tokens != [] {
      var init := tokens[..|tokens| - 1];
      assert forall k :: 0 <= k < |init| ==> init[k] == tokens[k];
      NoneMalformed(init);
    }
  }

  /** The two first `-`-separated segments of `a-b`, possibly followed by `-`
      and more, are `a` and `b`. */
  lemma FirstTwoSegments(a: string, b: string, tail: string)
    requires '-' !in a && '-' !in b
    requires tail == [] || tail[0] == '-'
    ensures |Split(a + ['-'] + b + tail, '-')| >= 2
    ensures Split(a + ['-'] + b + tail, '-')[0] == a
    ensures Split(a + ['-'] + b + tail, '-')[1] == b
  {
    assert a + ['-'] + b + tail == a + ['-'] + (b + tail);
    SplitAppend(a, b + tail, '-');
    SplitWithoutSeparator(a, '-');
    if tail == [] {
      assert b + tail == b;
      SplitWithoutSeparator(b, '-');
    } else {
      assert b + tail == b + ['-'] + tail[1..];
      SplitAppend(b, tail[1..], '-');
      SplitWithoutSeparator(b, '-');
    }
  }

  /** A token whose trimmed text is `a-b`, possibly followed by `-` and more,
      is the range of its first two sides when both parse, and a bad range
      otherwise; everything after the second `-` is ignored. */
  lemma RangeReadsFirstTwoSides(raw: string, a: string, b: string, tail: string)
    requires Trim(raw) == a + ['-'] + b + tail
    requires '-' !in a && '-' !in b
    requires tail == [] || tail[0] == '-'
    ensures ReadToken(raw) ==
      match (ParseU32(Trim(a)), ParseU32(Trim(b)))
      case (Some(first), Some(last)) => Span(first, last)
      case _ => BadRange(Trim(raw))
  {
    assert Trim(raw)[|a|] == '-';
    FirstTwoSegments(a, b, tail);
  }

  /** Digit strings are kept whole by trimming and splitting. */
  lemma DigitsToken(s: string)
    requires |s| >= 1 && AllDigits(s)
    ensures Trim(s) == s && '-' !in s && ',' !in s
  {
    assert IsDigit(s[0]) && IsDigit(s[|s| - 1]);
    TrimUnpadded(s);
    assert forall k :: 0 <= k < |s| ==> s[k] != '-' && s[k] != ',' by {
      forall k | 0 <= k < |s| ensures s[k] != '-' && s[k] != ',' { assert IsDigit(s[k]); }
    }
  }

  /** A lone decimal number is read as that week. */
  lemma ReadNumber(n: U32)
    ensures ReadToken(NatToString(n)) == Week(n)
  {
    DigitsToken(NatToString(n));
    ParseU32OfNatToString(n);
  }

  /** The comma-separated decimal text of a non-empty list of weeks. */
  function RenderWeeks(weeks: seq<U32>): (text: string)
    requires |weeks| >= 1
  {
    Join(seq(|weeks|, k requires 0 <= k < |weeks| => NatToString(weeks[k])), ',')
  }

  lemma {:induction false} SingleWeeks(weeks: seq<U32>, tokens: seq<Token>)
    requires |tokens| == |weeks|
    requires forall k :: 0 <= k < |weeks| ==> tokens[k] == Week(weeks[k])
    ensures TokensWeeks(tokens) == weeks && TokensDiagnostics(tokens) == []
    decreases |weeks|
  {
    if weeks != [] {
      var n := |weeks| - 1;
      SingleWeeks(weeks[..n], tokens[..n]);
      assert weeks[..n] + [weeks[n]] == weeks;
    }
  }

  /** Parsing reads back any non-empty list of weeks written as decimal numbers
      separated by commas, with no diagnostic. */
  lemma ParseRendered(weeks: seq<U32>)
    requires |weeks| >= 1
    ensures WeeksOf(RenderWeeks(weeks)) == weeks
    ensures DiagnosticsOf(RenderWeeks(weeks)) == []
  {
    var pieces := seq(|weeks|, k requires 0 <= k < |weeks| => NatToString(weeks[k]));
    forall k | 0 <= k < |pieces| ensures ',' !in pieces[k] {
      DigitsToken(pieces[k]);
    }
    SplitJoin(pieces, ',');
    var tokens := ReadTokens(pieces);
    forall k | 0 <= k < |weeks| ensures tokens[k] == Week(weeks[k]) {
      ReadNumber(weeks[k]);
    }
    SingleWeeks(weeks, tokens);
  }

  /** Whatever follows the second `-` of a range is ignored: `a-b-...` is the
      range from `a` to `b`, with no diagnostic. */
  lemma RangeIgnoresTail(first: U32, last: U32, tail: string)
    requires tail == [] || (tail[0] == '-' && !IsWhitespace(tail[|tail| - 1]))
    requires ',' !in tail
    ensures WeeksOf(NatToString(first) + "-" + NatToString(last) + tail) == InclusiveRange(first, last)
    ensures DiagnosticsOf(NatToString(first) + "-" + NatToString(last) + tail) == []
  {
    var a, b := NatToString(first), NatToString(last);
    var raw := a + "-" + b + tail;
    DigitsToken(a);
    DigitsToken(b);
    assert raw[0] == a[0] && IsDigit(a[0]);
    if tail == [] {
      assert raw[|raw| - 1] == b[|b| - 1] && IsDigit(b[|b| - 1]);
    } else {
      assert raw[|raw| - 1] == tail[|tail| - 1];
    }
    TrimUnpadded(raw);
    ParseU32OfNatToString(first);
    ParseU32OfNatToString(last);
    assert raw == a + ['-'] + b + tail;
    RangeReadsFirstTwoSides(raw, a, b, tail);
    forall k | 0 <= k < |raw| ensures raw[k] != ',' {
      if k < |a| {
        assert raw[k] == a[k];
      } else if |a| < k < |a| + 1 + |b| {
        assert raw[k] == b[k - |a| - 1];
      } else if k >= |a| + 1 + |b| {
        assert raw[k] == tail[k - |a| - 1 - |b|];
      }
    }
    WeeksOfOneToken(raw);
  }

  // ---------------------------------------------------------------------------
  // Worked examples
  // ---------------------------------------------------------------------------

  lemma SmallNumbers()
    ensures NatToString(1) == "1" && NatToString(2) == "2" && NatToString(3) == "3"
    ensures NatToString(4) == "4" && NatToString(5) == "5"
  {
  }

  /** A descending range such as `5-3` stands for no week and is not reported. */
  lemma DescendingRangeIsSilent()
    ensures WeeksOf("5-3") == [] && DiagnosticsOf("5-3") == []
  {
    var five: U32, three: U32 := 5, 3;
    var text := NatToString(five) + "-" + NatToString(three) + [];
    SmallNumbers();
    assert text == "5-3";
    RangeIgnoresTail(five, three, []);
  }

  /** A number, a comma and a range stand for that week followed by the range. */
  lemma NumberThenRange(n: U32, first: U32, last: U32)
    ensures var text := NatToString(n) + [','] + (NatToString(first) + "-" + NatToString(last) + []);
      WeeksOf(text) == [n] + InclusiveRange(first, last) && DiagnosticsOf(text) == []
  {
    var range := NatToString(first) + "-" + NatToString(last) + [];
    WeeksOfAppend(NatToString(n), range);
    DigitsToken(NatToString(n));
    WeeksOfOneToken(NatToString(n));
    ReadNumber(n);
    RangeIgnoresTail(first, last, []);
  }

  /** `1,3-4` stands for weeks 1, 3 and 4. */
  lemma ListAndRange()
    ensures WeeksOf("1,3-4") == [1, 3, 4] && DiagnosticsOf("1,3-4") == []
  {
    var one: U32, three: U32, four: U32 := 1, 3, 4;
    SmallNumbers();
    var text := NatToString(one) + [','] + (NatToString(three) + "-" + NatToString(four) + []);
    assert text == "1,3-4";
    NumberThenRange(one, three, four);
    assert InclusiveRange(three, four) == [3, 4];
  }

  /** Only the first two segments of a range count: `1-2-3` stands for weeks
      1 and 2. */
  lemma ThirdSegmentIgnored()
    ensures WeeksOf("1-2-3") == [1, 2] && DiagnosticsOf("1-2-3") == []
  {
    var one: U32, two: U32, tail := 1, 2, "-3";
    SmallNumbers();
    assert NatToString(one) + "-" + NatToString(two) + tail == "1-2-3";
    RangeIgnoresTail(one, two, tail);
  }

  /** A range with an empty side, such as `-3`, is an invalid range. */
  lemma EmptyFirstSideIsInvalidRange()
    ensures WeeksOf("-3") == [] && DiagnosticsOf("-3") == ["Invalid week range: -3"]
  {
    var raw := "-3";
    assert IsDigit(raw[|raw| - 1]);
    TrimUnpadded(raw);
    assert raw == "" + ['-'] + "3" + [];
    RangeReadsFirstTwoSides(raw, "", "3", []);
    assert ',' !in raw;
    WeeksOfOneToken(raw);
    assert "Invalid week range: " + raw == "Invalid week range: -3";
  }

  /** So is `3-`. */
  lemma EmptySecondSideIsInvalidRange()
    ensures WeeksOf("3-") == [] && DiagnosticsOf("3-") == ["Invalid week range: 3-"]
  {
    var raw := "3-";
    assert IsDigit(raw[0]);
    TrimUnpadded(raw);
    assert raw == "3" + ['-'] + "" + [];
    RangeReadsFirstTwoSides(raw, "3", "", []);
    assert ',' !in raw;
    WeeksOfOneToken(raw);
    assert "Invalid week range: " + raw == "Invalid week range: 3-";
  }

  /** An unpadded token without `-` that does not parse is an invalid week
      number. */
  lemma BadNumberToken(raw: string)
    requires ',' !in raw && '-' !in raw && Trim(raw) == raw && ParseU32(raw) == None
    ensures WeeksOf(raw) == [] && DiagnosticsOf(raw) == ["Invalid week number: " + raw]
  {
    WeeksOfOneToken(raw);
  }

  /** A single word that starts with neither a digit nor `+`, such as `abc`,
      is an invalid week number: it yields no week and one diagnostic. */
  lemma WordIsInvalidNumber(word: string)
    requires word != [] && !IsDigit(word[0]) && word[0] != '+'
    requires !IsWhitespace(word[0]) && !IsWhitespace(word[|word| - 1])
    requires ',' !in word && '-' !in word
    ensures WeeksOf(word) == [] && DiagnosticsOf(word) == ["Invalid week number: " + word]
  {
    TrimUnpadded(word);
    ParseU32RejectsNonDigit(word, 0);
    BadNumberToken(word);
  }
}
