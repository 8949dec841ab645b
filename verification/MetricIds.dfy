/** Adding the registered metrics: each registered name comes back as a specification of its own and gets an id, under
    which it is read from then on. */
module MetricIds {
  import opened CStrings
  import opened MetricSpec
  import opened NameFile
  import opened NumberText
  import opened PluginTypes
  import Registration

  /** The conversion to a signed number, which keeps the value modulo 2^32. */
  function ToInt32(x: uint32): (r: int32)
    ensures r == x || r == x - 0x1_0000_0000
  {
    if x <= INT32_MAX then x else x - 0x1_0000_0000
  }

  datatype Outcome = Thrown | Id(id: int32)

  /** One metric, with the counter the ids come from. */
  function Add(next: uint32, metric: string): (uint32, Outcome) {
    match Parse(metric)
    case Metric(event, _, _) => if event == "UCX" then (ToUint32(next + 1), Id(ToInt32(next))) else (next, Id(0))
    case _ => (next, Thrown)
  }

  function AddAll(next: uint32, metrics: seq<string>): (r: seq<Outcome>)
    ensures |r| == |metrics|
    decreases |metrics|
  {
    if metrics == [] then []
    else
      var (later, outcome) := Add(next, metrics[0]);
      [outcome] + AddAll(later, metrics[1..])
  }

  // ---- the ids are the positions ----

  ghost predicate AreCounted(outcomes: seq<Outcome>, first: nat) {
    forall k :: 0 <= k < |outcomes| ==> outcomes[k].Id? && outcomes[k].id == first + k
  }

  predicate AllUcx(metrics: seq<string>) {
    forall k :: 0 <= k < |metrics| ==> IsUcx(metrics[k])
  }

  predicate AllParsed(metrics: seq<string>) {
    forall k :: 0 <= k < |metrics| ==> Parse(metrics[k]).Metric?
  }

  lemma CountedCons(outcome: Outcome, outcomes: seq<Outcome>, first: nat)
    ensures AreCounted([outcome] + outcomes, first) <==>
            outcome.Id? && outcome.id == first && AreCounted(outcomes, first + 1)
  {
    var all := [outcome] + outcomes;
    if AreCounted(all, first) {
      assert all[0] == outcome;
      assert forall k :: 0 <= k < |outcomes| ==> outcomes[k] == all[k + 1];
    }
  }

  /** The first metric of a list, and the others. */
  lemma FirstAdded(next: uint32, metrics: seq<string>)
    requires metrics != []
    ensures
      var (later, outcome) := Add(next, metrics[0]);
      && (AreCounted(AddAll(next, metrics), next) <==>
          outcome.Id? && outcome.id == next && AreCounted(AddAll(later, metrics[1..]), next + 1))
      && (AllUcx(metrics) <==> IsUcx(metrics[0]) && AllUcx(metrics[1..]))
  {
    hide Add, IsUcx;
    var (later, outcome) := Add(next, metrics[0]);
    CountedCons(outcome, AddAll(later, metrics[1..]), next);
    assert forall k :: 0 < k < |metrics| ==> metrics[k] == metrics[1..][k - 1];
  }

  lemma {:induction false} CountedIff(next: uint32, metrics: seq<string>)
    requires 0 < next
    ensures AreCounted(AddAll(next, metrics), next) <==>
            metrics == [] || (next + |metrics| <= INT32_MAX + 1 && AllUcx(metrics))
    decreases |metrics|
  {
    hide Parse, AddAll, AllUcx, AreCounted;
    if metrics == [] {
      NothingAdded(next);
    } else {
      FirstAdded(next, metrics);
      if IsUcx(metrics[0]) && next <= INT32_MAX {
        NothingAdded(next + 1);
        CountedIff(next + 1, metrics[1..]);
      }
    }
  }

  lemma NothingAdded(next: uint32)
    ensures AreCounted(AddAll(next, []), next) && AllUcx([])
  {
  }

  /** The ids of a list of metrics, added first of all, are their positions exactly when all of them are `UCX`
      specifications and their number is within 31 bits; or there is just one that can be parsed. */
  lemma IdsArePositionsIff(metrics: seq<string>)
    ensures AreCounted(AddAll(0, metrics), 0) <==>
            || (|metrics| <= INT32_MAX + 1 && AllUcx(metrics))
            || (|metrics| == 1 && Parse(metrics[0]).Metric?)
  {
    hide Parse, AddAll, AllUcx, AreCounted;
    NothingAdded(0);
    if metrics != [] {
      FirstAdded(0, metrics);
      if IsUcx(metrics[0]) {
        NothingAdded(1);
        CountedIff(1, metrics[1..]);
      } else if |metrics| == 1 {
        SecondIsNotCounted(0, []);
      } else {
        SecondIsNotCounted(0, metrics[1..]);
      }
    }
  }

  /** While the counter stands at 0, no metric gets the id 1. */
  lemma SecondIsNotCounted(next: uint32, metrics: seq<string>)
    requires next == 0
    ensures AreCounted(AddAll(next, metrics), next + 1) <==> metrics == []
  {
    hide Parse;
    if metrics != [] {
      assert AddAll(next, metrics)[0] == Add(next, metrics[0]).1;
    }
  }

  // ---- when a registered name is a specification ----

  lemma {:induction false} CountConcat(s: string, t: string, c: char)
    ensures Count(s + t, c) == Count(s, c) + Count(t, c)
  {
    if s == "" {
      assert s + t == t;
    } else {
      assert (s + t)[1..] == s[1..] + t;
      CountConcat(s[1..], t, c);
    }
  }

  lemma {:induction false} CountNothingIff(s: string, c: char)
    ensures Count(s, c) == 0 <==> c !in s
  {
    if s != "" {
      CountNothingIff(s[1..], c);
      assert s == [s[0]] + s[1..];
    }
  }

  lemma CountLast(s: string, c: char)
    requires s != ""
    ensures Count(s, c) == Count(s[..|s| - 1], c) + if EndsWith(s, c) then 1 else 0
  {
    var last := s[|s| - 1..];
    CountConcat(s[..|s| - 1], last, c);
    assert s == s[..|s| - 1] + last && last[1..] == "";
  }

  lemma {:induction false} SkipSpacesOfLonger(s: string, rest: string)
    requires SkipSpaces(s) != ""
    ensures SkipSpaces(s + rest) == SkipSpaces(s) + rest
  {
    if IsSpace(s[0]) {
      assert (s + rest)[1..] == s[1..] + rest;
      SkipSpacesOfLonger(s[1..], rest);
    }
  }

  lemma {:induction false} DigitsOfLonger(s: string, rest: string, base: nat)
    requires rest == "" || !IsDigit(rest[0], base)
    ensures DigitsLength(s + rest, base) == DigitsLength(s, base)
  {
    if s == "" {
      assert s + rest == rest;
    } else {
      assert (s + rest)[1..] == s[1..] + rest;
      DigitsOfLonger(s[1..], rest, base);
    }
  }

  /** What follows a number without being a digit makes no difference. */
  lemma ConvertOfLonger(s: string, rest: string)
    requires Convert(s, 10).Number? && (rest == "" || !IsDigit(rest[0], 10))
    ensures Convert(s + rest, 10) == Convert(s, 10)
  {
    hide Magnitude;
    var signed := SkipSpaces(s);
    SkipSpacesOfLonger(s, rest);
    var digits := SkipSign(signed);
    assert SkipSign(signed + rest) == digits + rest;
    DigitsOfLonger(digits, rest, 10);
    var n := DigitsLength(digits, 10);
    assert (digits + rest)[..n] == digits[..n];
  }

  /** How a `UCX` specification is made up. */
  lemma UcxText(metric: string) returns (argument: string)
    requires IsUcx(metric)
    ensures '@' !in argument && argument != "" && Convert(argument, 10).Number?
    ensures metric == "UCX@" + argument + if EndsWith(metric, '@') then "@" else ""
    ensures Count(metric, '@') == if EndsWith(metric, '@') then 2 else 1
  {
    hide Split, Convert, Strtoull;
    ParseMeaning(metric, Parse(metric));
    var event: string;
    event, argument :|
      && '@' !in event && '@' !in argument
      && metric == event + "@" + argument + (if EndsWith(metric, '@') then "@" else "")
      && Parse(metric) == ParsedFrom(event, argument);
    assert argument != "" by {
      assert Convert(argument, 10).Number?;
      NothingIsNoNumber();
    }
    assert event + "@" == "UCX@";
  }

  lemma NothingIsNoNumber()
    ensures Convert("", 10) == NoDigits
  {
  }

  /** The delimiter is at most the last character. */
  predicate DelimiterOnlyLast(s: string) {
    s == "" || '@' !in s[..|s| - 1]
  }

  /** The argument of a specification may go on after its number. */
  lemma LongerArgument(argument: string, body: string, end: string)
    requires '@' !in argument && argument != "" && Convert(argument, 10).Number?
    requires '@' !in body && body != "" && body[0] == '_' && (end == "" || end == "@")
    ensures IsUcx("UCX@" + argument + body + end)
    ensures Parse("UCX@" + argument + body + end).number == ToUint32(Convert(argument, 10).value)
  {
    hide Parse, Convert, Strtoull;
    ParsesEventArgument("UCX", argument + body);
    ConvertOfLonger(argument, body);
    assert "UCX" + "@" + (argument + body) + end == "UCX@" + argument + body + end;
    assert "UCX" + "@" + (argument + body) + "" == "UCX" + "@" + (argument + body);
  }

  lemma NumberOf(argument: string, end: string)
    requires '@' !in argument && argument != "" && Convert(argument, 10).Number? && (end == "" || end == "@")
    ensures Parse("UCX@" + argument + end).Metric?
    ensures Parse("UCX@" + argument + end).number == ToUint32(Convert(argument, 10).value)
  {
    hide Parse, Convert, Strtoull;
    ParsesEventArgument("UCX", argument);
    assert "UCX" + "@" + argument + end == "UCX@" + argument + end;
    assert "UCX" + "@" + argument + "" == "UCX" + "@" + argument;
  }

  lemma TooManyDelimiters(metric: string, suffix: string)
    requires IsUcx(metric) && suffix != "" && (EndsWith(metric, '@') || '@' in suffix[..|suffix| - 1])
    ensures !Parse(metric + suffix).Metric?
  {
    hide Parse, Split, Count;
    var name := metric + suffix;
    var _ := UcxText(metric);
    CountConcat(metric, suffix, '@');
    CountLast(suffix, '@');
    CountNothingIff(suffix[..|suffix| - 1], '@');
    ParseMeaning(name, Parse(name));
    assert EndsWith(name, '@') == EndsWith(suffix, '@');
    assert !HasTwoTokens(name);
  }

  /** A name made from a `UCX` specification by adding to it is a specification again, and then a `UCX` one with the same
      number, exactly when the given one has no `@` at its end and what was added has none but at its end. */
  lemma LongerNameAcceptedIff(metric: string, suffix: string)
    requires IsUcx(metric) && suffix != "" && suffix[0] == '_'
    ensures Parse(metric + suffix).Metric? <==> !EndsWith(metric, '@') && DelimiterOnlyLast(suffix)
    ensures Parse(metric + suffix).Metric? ==>
              IsUcx(metric + suffix) && Parse(metric + suffix).number == Parse(metric).number
  {
    hide Parse, Convert, Split, Strtoull;
    if EndsWith(metric, '@') || '@' in suffix[..|suffix| - 1] {
      TooManyDelimiters(metric, suffix);
    } else {
      var argument := UcxText(metric);
      var end := if EndsWith(suffix, '@') then "@" else "";
      var body := suffix[..|suffix| - |end|];
      assert suffix == body + end && metric == "UCX@" + argument;
      assert '@' !in body by {
        assert suffix == suffix[..|suffix| - 1] + [suffix[|suffix| - 1]];
      }
      LongerArgument(argument, body, end);
      NumberOf(argument, "");
      assert "UCX@" + argument + "" == metric;
      assert metric + suffix == "UCX@" + argument + body + end;
    }
  }

  // ---- the names of a registration ----

  /** What a registered name adds to the specification. */
  function Suffix(c: Registration.CounterClass): CString {
    "_" + c.className + "_" + c.counterName
  }

  /** The names that the library answers are all accepted exactly when the specification they were asked for has no `@` at
      its end, and their class and counter names have none but at their very end. */
  lemma AnsweredAcceptedIff(metric: CString, answer: seq<Registration.CounterClass>)
    requires IsUcx(metric)
    ensures var names := Registration.AnsweredNames(metric, answer);
            AllUcx(names) <==>
            answer == [] ||
            (!EndsWith(metric, '@') && forall k :: 0 <= k < |answer| ==> DelimiterOnlyLast(Suffix(answer[k])))
    ensures AllParsed(Registration.AnsweredNames(metric, answer)) ==> AllUcx(Registration.AnsweredNames(metric, answer))
  {
    hide Parse, IsUcx, Suffix, DelimiterOnlyLast;
    var names := Registration.AnsweredNames(metric, answer);
    forall k | 0 <= k < |answer|
      ensures IsUcx(names[k]) <==> !EndsWith(metric, '@') && DelimiterOnlyLast(Suffix(answer[k]))
      ensures Parse(names[k]).Metric? ==> IsUcx(names[k])
    {
      AnsweredNameAcceptedIff(metric, answer[k]);
    }
    assert answer != [] && AllUcx(names) ==> IsUcx(names[0]);
  }

  lemma AnsweredNameAcceptedIff(metric: CString, c: Registration.CounterClass)
    requires IsUcx(metric)
    ensures IsUcx(Registration.CounterName(metric, c)) <==> !EndsWith(metric, '@') && DelimiterOnlyLast(Suffix(c))
    ensures Parse(Registration.CounterName(metric, c)).Metric? ==> IsUcx(Registration.CounterName(metric, c))
  {
    hide Parse, EndsWith, DelimiterOnlyLast;
    LongerNameAcceptedIff(metric, Suffix(c));
    assert Registration.CounterName(metric, c) == metric + Suffix(c);
  }

  lemma NicNameAcceptedIff(metric: CString, name: CString)
    requires IsUcx(metric)
    ensures IsUcx(metric + "_nic_cnt_" + name) <==> !EndsWith(metric, '@') && DelimiterOnlyLast(name)
    ensures Parse(metric + "_nic_cnt_" + name).Metric? ==> IsUcx(metric + "_nic_cnt_" + name)
  {
    hide Parse, EndsWith;
    var suffix := "_nic_cnt_" + name;
    LongerNameAcceptedIff(metric, suffix);
    assert metric + suffix == metric + "_nic_cnt_" + name;
    if name == "" {
      assert suffix[..|suffix| - 1] == "_nic_cnt";
    } else {
      assert suffix[..|suffix| - 1] == "_nic_cnt_" + name[..|name| - 1];
    }
  }

  // ---- the names that come back from the file ----

  /** No part of a specification from behind its first `@` is a specification. */
  lemma TailRejected(metric: string, i: nat, j: nat)
    requires IsUcx(metric) && 4 <= i <= j <= |metric|
    ensures !Parse(metric[i..j]).Metric?
  {
    hide Parse, Split, Count;
    var argument := UcxText(metric);
    var part := metric[i..j];
    ParseMeaning(part, Parse(part));
    if part == "" {
      CountNothingIff(part, '@');
    } else {
      forall k | 0 <= k < |part| - 1
        ensures part[k] != '@'
      {
        assert part[k] == metric[i + k] == argument[i + k - 4];
      }
      CountLast(part, '@');
      CountNothingIff(part[..|part| - 1], '@');
    }
  }

  lemma {:induction false} TakenFront(front: string, rest: string, room: nat)
    requires OneLine(front) && |front| <= room
    ensures Taken(front + rest, room) >= |front|
  {
    if front != "" {
      assert (front + rest)[1..] == front[1..] + rest;
      TakenFront(front[1..], rest, room - 1);
    }
  }

  /** A piece of a line is a part of it. */
  lemma PieceOfLine(line: CString, n: nat, m: nat) returns (e: nat)
    requires n <= |line| && 0 < m <= |line| + 1 - n
    ensures n <= e <= |line| && StripNewline((line + "\n")[n..][..m]) == line[n..e]
  {
    var piece := (line + "\n")[n..][..m];
    e := if piece[m - 1] == '\n' then n + m - 1 else n + m;
    assert StripNewline(piece) == line[n..e];
  }

  /** A name that the file does not give back in one piece comes back with one that is no specification. */
  lemma SecondPieceRejected(name: CString)
    requires IsUcx(name) && !Fits(name)
    ensures |ReadNames(name + "\n")| >= 2 && !Parse(ReadNames(name + "\n")[1]).Metric?
  {
    hide Parse, ReadNames, Taken, StripNewline;
    var text: CString := name + "\n";
    var n := Taken(text, BUFFER_SIZE - 1);
    LineCount(name);
    ReadStep(text);
    var argument := UcxText(name);
    assert text == "UCX@" + text[4..];
    TakenFront("UCX@", text[4..], BUFFER_SIZE - 1);
    if text[n..] == "" {
      ReadStep("");
    } else {
      var m := Taken(text[n..], BUFFER_SIZE - 1);
      ReadStep(text[n..]);
      var e := PieceOfLine(name, n, m);
      TailRejected(name, n, e);
    }
  }

  lemma AllConcat(m: seq<string>, n: seq<string>)
    ensures AllParsed(m + n) <==> AllParsed(m) && AllParsed(n)
    ensures AllUcx(m + n) <==> AllUcx(m) && AllUcx(n)
  {
    hide Parse, IsUcx;
    assert forall k :: 0 <= k < |m| ==> m[k] == (m + n)[k];
    assert forall k :: 0 <= k < |n| ==> n[k] == (m + n)[|m| + k];
  }

  /** Accepted names that were written to the file are all accepted again when read from it, exactly when all of them
      are within the file's limits. */
  lemma {:induction false} ReadBackAcceptedIff(names: seq<CString>)
    requires AllUcx(names)
    ensures AllParsed(ReadNames(WriteNames(names))) <==> AllFit(names)
    ensures AllUcx(ReadNames(WriteNames(names))) <==> AllFit(names)
  {
    hide Parse, ReadNames, Fits;
    RoundTripIffFits(names);
    if names == [] {
      ReadStep("");
    } else {
      var rest := names[1..];
      ReadBackAcceptedIff(rest);
      LinesReadSeparately(names[0], WriteNames(rest));
      AllConcat(ReadNames(names[0] + "\n"), ReadNames(WriteNames(rest)));
      LineCount(names[0]);
      if !Fits(names[0]) {
        SecondPieceRejected(names[0]);
      }
      assert forall k :: 0 < k < |names| ==> names[k] == rest[k - 1];
    }
  }

  /** So the next run gives the names their positions as ids exactly when the file gives the list back. */
  lemma ReadBackIdsArePositionsIff(names: seq<CString>)
    requires AllUcx(names) && |names| <= INT32_MAX + 1
    ensures AreCounted(AddAll(0, ReadNames(WriteNames(names))), 0) <==> AllFit(names)
  {
    hide Parse, AreCounted, AddAll, ReadNames, WriteNames, Fits;
    RoundTripIffFits(names);
    ReadBackAcceptedIff(names);
    IdsArePositionsIff(ReadNames(WriteNames(names)));
  }
}
