/** Metric specifications `EVENT@ARGUMENT`: src/utils.cpp. */
module MetricSpec {
  import opened CStrings
  import opened NumberText
  import opened PluginTypes

  /** The tokens that successive `getline` calls extract. */
  function Split(s: string, delimiter: char): seq<string> {
    if s == "" then []
    else
      var n := IndexOf(s, delimiter);
      if n == |s| then [s] else [s[..n]] + Split(s[n + 1..], delimiter)
  }

  function Join(tokens: seq<string>, delimiter: char): string {
    if tokens == [] then ""
    else if |tokens| == 1 then tokens[0]
    else tokens[0] + [delimiter] + Join(tokens[1..], delimiter)
  }

  function Count(s: string, c: char): nat {
    if s == "" then 0 else (if s[0] == c then 1 else 0) + Count(s[1..], c)
  }

  predicate EndsWith(s: string, c: char) {
    s != "" && s[|s| - 1] == c
  }

  lemma {:induction false} TokensFreeOfDelimiter(s: string, delimiter: char)
    ensures forall i :: 0 <= i < |Split(s, delimiter)| ==> delimiter !in Split(s, delimiter)[i]
    decreases |s|
  {
    var n := IndexOf(s, delimiter);
    if n < |s| {
      TokensFreeOfDelimiter(s[n + 1..], delimiter);
    } else {
      assert s[..n] == s;
    }
  }

  /** Joining the tokens gives the input back, less one delimiter at its end. */
  lemma {:induction false} JoinSplit(s: string, delimiter: char)
    ensures Join(Split(s, delimiter), delimiter) == if EndsWith(s, delimiter) then s[..|s| - 1] else s
    decreases |s|
  {
    hide Split, Join, IndexOf;
    var n := IndexOf(s, delimiter);
    SplitStep(s, delimiter);
    if n < |s| {
      var token, rest := s[..n], s[n + 1..];
      JoinSplit(rest, delimiter);
      JoinCons(token, Split(rest, delimiter), delimiter);
      SplitStep(rest, delimiter);
      assert s == token + [delimiter] + rest;
      LessOneDelimiter(s, token, rest, delimiter);
    } else if s != "" {
      assert s[..n][|s| - 1] != delimiter;
      JoinCons(s, [], delimiter);
      assert [s] + [] == [s];
    } else {
      JoinNothing(delimiter);
    }
  }

  lemma LessOneDelimiter(s: string, token: string, rest: string, delimiter: char)
    requires s == token + [delimiter] + rest
    ensures (if EndsWith(s, delimiter) then s[..|s| - 1] else s) ==
            if rest == "" then token
            else token + [delimiter] + if EndsWith(rest, delimiter) then rest[..|rest| - 1] else rest
  {
  }

  lemma SplitStep(s: string, delimiter: char)
    ensures var n := IndexOf(s, delimiter);
            Split(s, delimiter) ==
              if s == "" then [] else if n == |s| then [s] else [s[..n]] + Split(s[n + 1..], delimiter)
  {
    hide IndexOf;
  }

  lemma JoinNothing(delimiter: char)
    ensures Join([], delimiter) == ""
  {
  }

  lemma JoinCons(token: string, tokens: seq<string>, delimiter: char)
    ensures Join([token] + tokens, delimiter) ==
            if tokens == [] then token else token + [delimiter] + Join(tokens, delimiter)
  {
    assert ([token] + tokens)[1..] == tokens;
  }

  /** Splitting what was joined from delimiter-free tokens gives the tokens back, less one empty token at the end. */
  lemma {:induction false} SplitJoin(tokens: seq<string>, delimiter: char)
    requires forall i :: 0 <= i < |tokens| ==> delimiter !in tokens[i]
    ensures Split(Join(tokens, delimiter), delimiter) ==
            if tokens != [] && tokens[|tokens| - 1] == "" then tokens[..|tokens| - 1] else tokens
  {
    if |tokens| == 1 {
      IndexOfFirst(tokens[0], "", delimiter);
      assert tokens[0] + "" == tokens[0];
    } else if |tokens| > 1 {
      var rest := Join(tokens[1..], delimiter);
      IndexOfFirst(tokens[0], [delimiter] + rest, delimiter);
      assert Join(tokens, delimiter) == tokens[0] + ([delimiter] + rest);
      assert Join(tokens, delimiter)[|tokens[0]| + 1..] == rest;
      SplitJoin(tokens[1..], delimiter);
      assert tokens == [tokens[0]] + tokens[1..];
    }
  }

  lemma {:induction false} TokenCount(s: string, delimiter: char)
    ensures |Split(s, delimiter)| ==
            Count(s, delimiter) + if s != "" && !EndsWith(s, delimiter) then 1 else 0
    decreases |s|
  {
    hide Split, IndexOf;
    var n := IndexOf(s, delimiter);
    SplitStep(s, delimiter);
    CountUpTo(s, n, delimiter);
    if n < |s| {
      TokenCount(s[n + 1..], delimiter);
    } else {
      assert s[n..] == "" && s[..n] == s;
    }
  }

  lemma {:induction false} CountUpTo(s: string, n: nat, c: char)
    requires n <= |s| && c !in s[..n]
    ensures Count(s, c) == Count(s[n..], c)
    ensures n < |s| && s[n] == c ==> Count(s, c) == 1 + Count(s[n + 1..], c)
  {
    if n > 0 {
      assert s[..n][0] != c && s[1..][..n - 1] == s[..n][1..];
      CountUpTo(s[1..], n - 1, c);
      assert s[1..][n - 1..] == s[n..];
      assert n < |s| ==> s[1..][n..] == s[n + 1..];
    } else {
      assert s[0..] == s;
    }
  }

  /** The arity check passes exactly on one delimiter that is not last, or on two of which the second is last. */
  lemma TwoTokensIff(s: string, delimiter: char)
    ensures |Split(s, delimiter)| == 2 <==>
            if EndsWith(s, delimiter) then Count(s, delimiter) == 2 else Count(s, delimiter) == 1
  {
    TokenCount(s, delimiter);
  }

  // ---- the code ----

  /** One `getline` from position `pos`: fails at the end of the text, and otherwise skips the delimiter it stops at. */
  method GetLine(s: string, pos: nat, delimiter: char) returns (ok: bool, token: string, next: nat)
    requires pos <= |s|
    ensures ok <==> pos < |s|
    ensures ok ==> pos < next <= |s| && Split(s[pos..], delimiter) == [token] + Split(s[next..], delimiter)
  {
    hide Split;
    ok, token, next := pos < |s|, "", pos;
    if !ok {
      return;
    }
    while next < |s| && s[next] != delimiter
      invariant pos <= next <= |s|
      invariant token == s[pos..next] && delimiter !in token
    {
      token := token + [s[next]];
      next := next + 1;
    }
    FirstToken(s, pos, next, delimiter);
    if next < |s| {
      next := next + 1;
    }
  }

  lemma FirstToken(s: string, pos: nat, next: nat, delimiter: char)
    requires pos <= next <= |s| && pos < |s|
    requires delimiter !in s[pos..next] && (next < |s| ==> s[next] == delimiter)
    ensures Split(s[pos..], delimiter) == [s[pos..next]] + Split(s[if next < |s| then next + 1 else next..], delimiter)
  {
    hide Split, IndexOf;
    var token, text := s[pos..next], s[pos..];
    assert text == token + s[next..];
    IndexOfFirst(token, s[next..], delimiter);
    SplitStep(text, delimiter);
    if next < |s| {
      assert text[|token| + 1..] == s[next + 1..] && text[..|token|] == token;
    } else {
      assert s[next..] == "" && text == token;
      SplitStep("", delimiter);
    }
  }

  method SplitTokens(s: string, delimiter: char) returns (tokens: seq<string>)
    ensures tokens == Split(s, delimiter)
  {
    hide Split;
    tokens := [];
    var pos: nat := 0;
    var ok, token, next := GetLine(s, pos, delimiter);
    assert s[0..] == s;
    while ok
      invariant pos <= |s| && (ok <==> pos < |s|)
      invariant ok ==> pos < next <= |s| && Split(s[pos..], delimiter) == [token] + Split(s[next..], delimiter)
      invariant tokens + Split(s[pos..], delimiter) == Split(s, delimiter)
      decreases |s| - pos
    {
      tokens := tokens + [token];
      pos := next;
      ok, token, next := GetLine(s, pos, delimiter);
    }
    SplitStep("", delimiter);
    assert s[pos..] == "";
  }

  /** The number is what `std::stoull` returns, cut to 32 bits; the pointer is the argument read as hexadecimal. */
  datatype Parsed = InvalidArgument | OutOfRange | Metric(event: string, number: uint32, pointer: uint64)

  /** The specification has an event and an argument. */
  predicate HasTwoTokens(metric: string) {
    if EndsWith(metric, '@') then Count(metric, '@') == 2 else Count(metric, '@') == 1
  }

  /** Parsing, told from the text: the event before the `@`, the argument after it, less an `@` at the end. */
  ghost predicate ParsesAs(metric: string, r: Parsed) {
    if !HasTwoTokens(metric) then r == InvalidArgument
    else
      exists event, argument ::
        && '@' !in event && '@' !in argument
        && metric == event + "@" + argument + (if EndsWith(metric, '@') then "@" else "")
        && r == ParsedFrom(event, argument)
  }

  function ParsedFrom(event: string, argument: string): Parsed {
    match Convert(argument, 10)
    case NoDigits => InvalidArgument
    case TooBig => OutOfRange
    case Number(n) => Metric(event, ToUint32(n), Strtoull(argument, 16))
  }

  function Parse(metric: string): Parsed {
    var tokens := Split(metric, '@');
    if |tokens| != 2 then InvalidArgument else ParsedFrom(tokens[0], tokens[1])
  }

  predicate IsUcx(metric: string) {
    Parse(metric).Metric? && Parse(metric).event == "UCX"
  }

  /** There is exactly one way to read a specification. */
  lemma ParseMeaning(metric: string, r: Parsed)
    ensures ParsesAs(metric, r) <==> r == Parse(metric)
  {
    hide Split, Count, ParsedFrom;
    TwoTokensIff(metric, '@');
    if HasTwoTokens(metric) {
      var tokens := Split(metric, '@');
      var tail := if EndsWith(metric, '@') then "@" else "";
      assert tokens == [tokens[0], tokens[1]];
      TwoTokensJoined(metric, tokens[0], tokens[1]);
      if ParsesAs(metric, r) {
        var event, argument :|
          '@' !in event && '@' !in argument && metric == event + "@" + argument + tail && r == ParsedFrom(event, argument);
        SameFront(metric, event, argument, tokens[0], tokens[1], tail);
      }
    }
  }

  /** An event with a non-empty argument, and possibly a delimiter at the end. */
  lemma ParsesEventArgument(event: string, argument: string)
    requires '@' !in event && '@' !in argument && argument != ""
    ensures Parse(event + "@" + argument) == ParsedFrom(event, argument)
    ensures Parse(event + "@" + argument + "@") == ParsedFrom(event, argument)
  {
    hide Split, Join, ParsedFrom;
    SplitJoin([event, argument], '@');
    SplitJoin([event, argument, ""], '@');
    assert [event, argument, ""][..2] == [event, argument];
    JoinCons(event, [argument], '@');
    JoinCons(argument, [], '@');
    JoinCons(event, [argument, ""], '@');
    JoinCons(argument, [""], '@');
    JoinCons("", [], '@');
    assert [event] + [argument] == [event, argument] && [argument] + [] == [argument];
    assert [event] + [argument, ""] == [event, argument, ""] && [argument] + [""] == [argument, ""] && [""] + [] == [""];
    assert event + "@" + (argument + "@" + "") == event + "@" + argument + "@";
  }

  /** An address given as hexadecimal text is accepted, and is then the pointer, exactly when the text does not begin
      with a letter; with the prefix `0x` it always is. */
  lemma PointerAcceptedIff(event: string, address: uint64)
    requires '@' !in event
    ensures
      var text := Hexadecimal(address);
      && (Parse(event + "@" + text).Metric? <==> '0' <= text[0] <= '9')
      && match Parse(event + "@" + text)
         case Metric(e, _, pointer) => e == event && pointer == address
         case InvalidArgument => true
         case OutOfRange => false
    ensures Parse(event + "@0x" + Hexadecimal(address)) == Metric(event, 0, address)
  {
    hide Parse, Convert, Numeral;
    var text := Hexadecimal(address);
    NumeralMagnitude(address, 16);
    assert !IsDigit('@', 16);
    assert '@' !in text && '@' !in "0x" + text;
    ParsesEventArgument(event, text);
    ParsesEventArgument(event, "0x" + text);
    assert event + "@0x" + text == event + "@" + ("0x" + text);
    ReadsHexadecimal(address);
    HexadecimalAsDecimalIff(address);
  }

  /** Address 10 is printed as a letter, which is no decimal number. */
  lemma PointerRejected(event: string)
    requires '@' !in event
    ensures Hexadecimal(10) == "a" && Parse(event + "@" + Hexadecimal(10)) == InvalidArgument
  {
    PointerAcceptedIff(event, 10);
  }

  lemma EventAndArgument(metric: string, event: string, argument: string, tail: string)
    requires '@' !in event && metric == event + "@" + argument + tail
    ensures IndexOf(metric, '@') == |event|
    ensures metric[..|event|] == event && metric[|event| + 1..|metric| - |tail|] == argument
  {
    hide IndexOf;
    var rest := "@" + argument + tail;
    assert metric == event + rest;
    IndexOfFirst(event, rest, '@');
    assert rest[1..|rest| - |tail|] == argument;
    assert metric[|event| + 1..|metric| - |tail|] == rest[1..|rest| - |tail|];
  }

  lemma SameFront(metric: string, e1: string, a1: string, e2: string, a2: string, tail: string)
    requires '@' !in e1 && '@' !in e2
    requires metric == e1 + "@" + a1 + tail && metric == e2 + "@" + a2 + tail
    ensures e1 == e2 && a1 == a2
  {
    hide IndexOf;
    EventAndArgument(metric, e1, a1, tail);
    EventAndArgument(metric, e2, a2, tail);
  }

  method ParseMetric(metric: string) returns (r: Parsed)
    ensures r == Parse(metric) && ParsesAs(metric, r)
  {
    hide Split, Convert, Strtoull, ParsesAs;
    ParseMeaning(metric, Parse(metric));
    var tokens := SplitTokens(metric, '@');
    if |tokens| != 2 {
      return InvalidArgument;
    }
    var event, argument := tokens[0], tokens[1];
    var pointer := Strtoull(argument, 16);
    match Convert(argument, 10)
    case NoDigits => r := InvalidArgument;
    case TooBig => r := OutOfRange;
    case Number(n) => r := Metric(event, ToUint32(n), pointer);
  }

  lemma TwoTokensJoined(metric: string, event: string, argument: string)
    requires Split(metric, '@') == [event, argument]
    ensures '@' !in event && '@' !in argument
    ensures metric == event + "@" + argument + (if EndsWith(metric, '@') then "@" else "")
  {
    TokensFreeOfDelimiter(metric, '@');
    JoinSplit(metric, '@');
    assert Split(metric, '@')[0] == event && Split(metric, '@')[1] == argument;
    assert Join([event, argument], '@') == event + "@" + argument;
  }
}
