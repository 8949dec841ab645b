/** Registering the UCX metrics over repeated calls and runs: the first list of names is kept in a file, and
    every later registration that can read it takes it from there. */
module Registration {
  import opened CStrings
  import opened NameFile

  /** A counter as the aggregate API names it. */
  datatype CounterClass = CounterClass(className: CString, counterName: CString)

  /** A registration: who asks, what the API would answer, whether a file that is there can be opened for reading, and
      at which names the file cannot be opened for appending. */
  datatype Request = Request(
    metric: CString, rank: nat, answer: seq<CounterClass>, readable: bool, unopened: set<nat>)

  function CounterName(metric: CString, c: CounterClass): (name: CString)
    ensures |name| == |metric| + |c.className| + |c.counterName| + 2
  {
    metric + "_" + c.className + "_" + c.counterName
  }

  function AnsweredNames(metric: CString, answer: seq<CounterClass>): (r: seq<CString>)
    ensures |r| == |answer|
  {
    seq(|answer|, i requires 0 <= i < |answer| => CounterName(metric, answer[i]))
  }

  /** The file after the first `n` names of the request were added to it. */
  function AddNames(file: File, request: Request, n: nat): File
    requires n <= |request.answer|
  {
    if n == 0 then file
    else
      var before := AddNames(file, request, n - 1);
      if n - 1 in request.unopened then before else Append(before, CounterName(request.metric, request.answer[n - 1]))
  }

  predicate Served(file: File, request: Request) {
    file.Present? && request.readable
  }

  /** What a registration does with the file, and the names it registers.  Rank 0 adds its names to a file that it
      could not read as it does to one that is not there. */
  function Register(file: File, request: Request): (File, seq<CString>) {
    if Served(file, request) then (file, ReadNames(file.content))
    else
      (if request.rank == 0 then AddNames(file, request, |request.answer|) else file,
       AnsweredNames(request.metric, request.answer))
  }

  /** Which name stands where, and who writes. */
  lemma RegisterOutcome(file: File, request: Request)
    ensures
      var (next, names) := Register(file, request);
      if file.Present? && request.readable then next == file && names == ReadNames(file.content)
      else
        && (request.rank != 0 ==> next == file)
        && |names| == |request.answer|
        && forall k :: 0 <= k < |names| ==>
             names[k] == request.metric + "_" + request.answer[k].className + "_" + request.answer[k].counterName
  {
    hide ReadNames, AddNames;
  }

  function FinalFile(file: File, requests: seq<Request>): File
    decreases |requests|
  {
    if requests == [] then file else FinalFile(Register(file, requests[0]).0, requests[1..])
  }

  function Registered(file: File, requests: seq<Request>): (r: seq<seq<CString>>)
    ensures |r| == |requests|
    decreases |requests|
  {
    if requests == [] then []
    else [Register(file, requests[0]).1] + Registered(Register(file, requests[0]).0, requests[1..])
  }

  /** The number of registrations that change the file. */
  function Writes(file: File, requests: seq<Request>): nat
    decreases |requests|
  {
    if requests == [] then 0
    else
      var next := Register(file, requests[0]).0;
      (if next == file then 0 else 1) + Writes(next, requests[1..])
  }

  // ---- the names that reach the file ----

  /** The first `n` names of a request, less those for which the file could not be opened. */
  function KeptNames(request: Request, n: nat): seq<CString>
    requires n <= |request.answer|
  {
    if n == 0 then []
    else
      KeptNames(request, n - 1) +
      if n - 1 in request.unopened then [] else [CounterName(request.metric, request.answer[n - 1])]
  }

  function Kept(request: Request): seq<CString> {
    KeptNames(request, |request.answer|)
  }

  lemma AddStep(file: File, request: Request, n: nat)
    requires n <= |request.answer|
    ensures AddNames(file, request, n) ==
            if n == 0 then file
            else if n - 1 in request.unopened then AddNames(file, request, n - 1)
            else Append(AddNames(file, request, n - 1), CounterName(request.metric, request.answer[n - 1]))
    ensures KeptNames(request, n) ==
            if n == 0 then []
            else if n - 1 in request.unopened then KeptNames(request, n - 1)
            else KeptNames(request, n - 1) + [CounterName(request.metric, request.answer[n - 1])]
  {
  }

  lemma AnsweredStep(metric: CString, answer: seq<CounterClass>, n: nat)
    requires n < |answer|
    ensures AnsweredNames(metric, answer)[..n + 1] == AnsweredNames(metric, answer)[..n] + [CounterName(metric, answer[n])]
  {
  }

  /** The file with more names at its end; no names leave it as it is, there or not. */
  function Extended(file: File, names: seq<CString>): File {
    if names == [] then file
    else match file
         case Absent => Present(WriteNames(names))
         case Present(content) => Present(content + WriteNames(names))
  }

  lemma ExtendedAppend(file: File, names: seq<CString>, name: CString)
    ensures Append(Extended(file, names), name) == Extended(file, names + [name])
  {
    hide WriteNames;
    WriteNamesAppend(names, name);
    WriteNamesCons(name, []);
    assert [name] + [] == [name] && [] + [name] == [name];
  }

  lemma ExtendedTwice(file: File, m: seq<CString>, n: seq<CString>)
    ensures Extended(Extended(file, m), n) == Extended(file, m + n)
  {
    hide WriteNames;
    WriteNamesConcat(m, n);
    assert m + [] == m && [] + n == n;
  }

  /** The names that reach the file are written behind what is in it, a line each. */
  lemma {:induction false} AddNamesWrites(file: File, request: Request, n: nat)
    requires n <= |request.answer|
    ensures AddNames(file, request, n) == Extended(file, KeptNames(request, n))
  {
    hide CounterName, Extended, AddNames, KeptNames;
    AddStep(file, request, n);
    if n == 0 {
      assert Extended(file, []) == file by { ExtendedNothing(file); }
    } else {
      AddNamesWrites(file, request, n - 1);
      ExtendedAppend(file, KeptNames(request, n - 1), CounterName(request.metric, request.answer[n - 1]));
    }
  }

  lemma ExtendedNothing(file: File)
    ensures Extended(file, []) == file
  {
  }

  predicate AllOpened(request: Request, n: nat) {
    forall k :: 0 <= k < n ==> k !in request.unopened
  }

  lemma {:induction false} AllOpenedKeepsAll(request: Request, n: nat)
    requires n <= |request.answer| && AllOpened(request, n)
    ensures KeptNames(request, n) == AnsweredNames(request.metric, request.answer)[..n]
  {
    hide CounterName;
    if n > 0 {
      AllOpenedKeepsAll(request, n - 1);
    }
  }

  lemma OneMoreLength(names: seq<CString>, name: CString)
    ensures TotalLength(names + [name]) == TotalLength(names) + |name|
  {
    TotalLengthConcat(names, [name]);
    assert [name][1..] == [];
  }

  /** Names that do not reach the file make the text shorter, since no name is empty. */
  lemma {:induction false} KeptAreShorter(request: Request, n: nat)
    requires n <= |request.answer|
    ensures
      var kept, names := TotalLength(KeptNames(request, n)), TotalLength(AnsweredNames(request.metric, request.answer)[..n]);
      if AllOpened(request, n) then kept == names else kept < names
  {
    hide CounterName, TotalLength;
    if n > 0 {
      var names, before := AnsweredNames(request.metric, request.answer), KeptNames(request, n - 1);
      KeptAreShorter(request, n - 1);
      assert names[..n] == names[..n - 1] + [names[n - 1]];
      OneMoreLength(names[..n - 1], names[n - 1]);
      if n - 1 in request.unopened {
        assert before + [] == before;
      } else {
        OneMoreLength(before, names[n - 1]);
      }
    }
  }

  // ---- whole runs ----

  /** What a registration that finds a file adds to it. */
  function Added(request: Request): seq<CString> {
    if request.rank == 0 && !request.readable then Kept(request) else []
  }

  /** What the registrations add to a file that is there. */
  function AllAdded(requests: seq<Request>): seq<CString> {
    if requests == [] then [] else Added(requests[0]) + AllAdded(requests[1..])
  }

  function AddingCount(requests: seq<Request>): nat {
    if requests == [] then 0 else (if Added(requests[0]) == [] then 0 else 1) + AddingCount(requests[1..])
  }

  /** The list registered by one who comes when `names` were added to the file. */
  function ListAfter(file: File, names: seq<CString>, request: Request): seq<CString> {
    Register(Extended(file, names), request).1
  }

  lemma RegisterFinding(content: CString, request: Request)
    ensures Register(Present(content), request).0 == Extended(Present(content), Added(request))
  {
    AddNamesWrites(Present(content), request, |request.answer|);
  }

  lemma ExtendedIsSame(file: File, names: seq<CString>)
    ensures Extended(file, names) == file <==> names == []
    ensures file.Present? ==> Extended(file, names).Present?
  {
    if file.Present? && names != [] {
      assert |Extended(file, names).content| > |file.content|;
    }
  }

  /** A file that is there is never replaced: over any registrations it grows at its end only, by the names of those
      of rank 0 that could not read it; every registration that can read takes its names from it. */
  lemma {:induction false} FileOnlyGrows(file: File, requests: seq<Request>)
    requires file.Present?
    ensures FinalFile(file, requests) == Extended(file, AllAdded(requests))
    ensures Writes(file, requests) == AddingCount(requests)
    ensures forall i :: 0 <= i < |requests| ==>
              Registered(file, requests)[i] == ListAfter(file, AllAdded(requests[..i]), requests[i])
    decreases |requests|
  {
    hide Extended, Added, Register, AddNames;
    ExtendedNothing(file);
    if requests != [] {
      var next, rest := Register(file, requests[0]).0, requests[1..];
      RegisterFinding(file.content, requests[0]);
      ExtendedIsSame(file, Added(requests[0]));
      FileOnlyGrows(next, rest);
      ExtendedTwice(file, Added(requests[0]), AllAdded(rest));
      forall i | 0 <= i < |requests|
        ensures Registered(file, requests)[i] == ListAfter(file, AllAdded(requests[..i]), requests[i])
      {
        if i > 0 {
          assert requests[..i][1..] == rest[..i - 1];
          ExtendedTwice(file, Added(requests[0]), AllAdded(rest[..i - 1]));
        }
      }
    }
  }

  lemma {:induction false} NothingAddedIff(requests: seq<Request>)
    ensures AllAdded(requests) == [] <==> forall i :: 0 <= i < |requests| ==> Added(requests[i]) == []
    ensures AllAdded(requests) == [] ==> AddingCount(requests) == 0
  {
    hide Added;
    if requests != [] {
      var rest := requests[1..];
      NothingAddedIff(rest);
      assert forall i :: 0 < i < |requests| ==> requests[i] == rest[i - 1];
    }
  }

  lemma {:induction false} NothingAddedSoFar(requests: seq<Request>, i: nat)
    requires i <= |requests| && AllAdded(requests) == []
    ensures AllAdded(requests[..i]) == []
  {
    hide Added;
    if i > 0 {
      NothingAddedSoFar(requests[1..], i - 1);
      assert requests[..i][1..] == requests[1..][..i - 1];
    }
  }

  /** A file that is there stays as it is exactly when no registration of rank 0 that cannot read it has a name to add;
      and then every registration that can read it takes its names from it. */
  lemma FileIsFixedPointIff(file: File, requests: seq<Request>)
    requires file.Present?
    ensures FinalFile(file, requests) == file <==> forall i :: 0 <= i < |requests| ==> Added(requests[i]) == []
    ensures FinalFile(file, requests) == file ==>
              && Writes(file, requests) == 0
              && forall i :: 0 <= i < |requests| && requests[i].readable ==>
                   Registered(file, requests)[i] == ReadNames(file.content)
  {
    hide Extended, Added, AllAdded;
    FileOnlyGrows(file, requests);
    ExtendedIsSame(file, AllAdded(requests));
    NothingAddedIff(requests);
    ExtendedNothing(file);
    forall i | 0 <= i < |requests| && AllAdded(requests) == []
      ensures AllAdded(requests[..i]) == []
    {
      NothingAddedSoFar(requests, i);
    }
  }

  predicate WritesFile(request: Request) {
    request.rank == 0 && Kept(request) != []
  }

  function FirstWriter(requests: seq<Request>): (p: nat)
    ensures p <= |requests|
    ensures p < |requests| ==> WritesFile(requests[p])
    ensures forall i :: 0 <= i < p ==> !WritesFile(requests[i])
  {
    if requests == [] || WritesFile(requests[0]) then 0 else 1 + FirstWriter(requests[1..])
  }

  /** The names that the first `n` registrations, started without a file, have written. */
  function Written(requests: seq<Request>, n: nat): seq<CString>
    requires n <= |requests|
  {
    var p := FirstWriter(requests);
    if n <= p then [] else Kept(requests[p]) + AllAdded(requests[p + 1..n])
  }

  lemma SliceOfRest<T>(s: seq<T>, i: nat, j: nat)
    requires 0 < i <= j <= |s|
    ensures s[1..][i - 1..j - 1] == s[i..j]
  {
  }

  lemma WrittenNext(requests: seq<Request>, n: nat)
    requires 0 < n <= |requests|
    ensures Written(requests, n) ==
            if WritesFile(requests[0]) then Kept(requests[0]) + AllAdded(requests[1..n])
            else Written(requests[1..], n - 1)
  {
    hide WritesFile, Kept, AllAdded;
    var rest := requests[1..];
    if !WritesFile(requests[0]) {
      var p := FirstWriter(rest);
      if n - 1 > p {
        SliceOfRest(requests, p + 2, n);
      }
    }
  }

  lemma FirstRegistration(request: Request)
    ensures Register(Absent, request).0 == if WritesFile(request) then Extended(Absent, Kept(request)) else Absent
    ensures WritesFile(request) ==> Register(Absent, request).0.Present?
  {
    hide KeptNames, WriteNames, AddNames;
    AddNamesWrites(Absent, request, |request.answer|);
  }

  lemma RunStep(file: File, requests: seq<Request>)
    requires requests != []
    ensures
      var next, rest := Register(file, requests[0]).0, requests[1..];
      && FinalFile(file, requests) == FinalFile(next, rest)
      && Writes(file, requests) == (if next == file then 0 else 1) + Writes(next, rest)
      && Registered(file, requests)[0] == Register(file, requests[0]).1
      && forall i :: 0 < i < |requests| ==> Registered(file, requests)[i] == Registered(next, rest)[i - 1]
  {
  }

  lemma {:induction false} FileOfRun(requests: seq<Request>)
    ensures FinalFile(Absent, requests) == Extended(Absent, Written(requests, |requests|))
    ensures var p := FirstWriter(requests);
            Writes(Absent, requests) == if p < |requests| then 1 + AddingCount(requests[p + 1..]) else 0
  {
    hide Extended, Register, WritesFile, AllAdded, AddingCount, Kept;
    ExtendedNothing(Absent);
    if requests != [] {
      var rest, next := requests[1..], Register(Absent, requests[0]).0;
      FirstRegistration(requests[0]);
      WrittenNext(requests, |requests|);
      if WritesFile(requests[0]) {
        FileOnlyGrows(next, rest);
        assert requests[1..|requests|] == rest;
        ExtendedTwice(Absent, Kept(requests[0]), AllAdded(rest));
      } else {
        FileOfRun(rest);
        var p := FirstWriter(rest);
        assert p < |rest| ==> requests[p + 2..] == rest[p + 1..];
      }
    }
  }

  lemma {:induction false} ListsOfRun(requests: seq<Request>, i: nat)
    requires i < |requests|
    ensures Registered(Absent, requests)[i] == ListAfter(Absent, Written(requests, i), requests[i])
  {
    hide Extended, Register, Registered, WritesFile, AllAdded, Kept, FirstWriter;
    ExtendedNothing(Absent);
    RunStep(Absent, requests);
    if i > 0 {
      var rest, next := requests[1..], Register(Absent, requests[0]).0;
      FirstRegistration(requests[0]);
      WrittenNext(requests, i);
      if WritesFile(requests[0]) {
        FileOnlyGrows(next, rest);
        assert requests[1..i] == rest[..i - 1];
        ExtendedTwice(Absent, Kept(requests[0]), AllAdded(rest[..i - 1]));
      } else {
        ListsOfRun(rest, i - 1);
      }
    }
  }

  lemma WrittenNothingIff(requests: seq<Request>, i: nat)
    requires i <= |requests|
    ensures Written(requests, i) == [] <==> i <= FirstWriter(requests)
  {
    hide AllAdded, Kept;
  }

  /** From no file, over any registrations by any ranks: up to the first one that writes a name, each registers what
      the API answers.  That one makes the file; from then on whoever can read it registers the names in it, whatever
      the API would answer, and only those of rank 0 that cannot read it add to it. */
  lemma RunsShareOneList(requests: seq<Request>)
    ensures FinalFile(Absent, requests) == Extended(Absent, Written(requests, |requests|))
    ensures var p := FirstWriter(requests);
            Writes(Absent, requests) == if p < |requests| then 1 + AddingCount(requests[p + 1..]) else 0
    ensures forall i :: 0 <= i < |requests| ==>
              && (Written(requests, i) == [] <==> i <= FirstWriter(requests))
              && Registered(Absent, requests)[i] == ListAfter(Absent, Written(requests, i), requests[i])
  {
    hide *;
    FileOfRun(requests);
    forall i | 0 <= i < |requests|
      ensures Written(requests, i) == [] <==> i <= FirstWriter(requests)
      ensures Registered(Absent, requests)[i] == ListAfter(Absent, Written(requests, i), requests[i])
    {
      WrittenNothingIff(requests, i);
      ListsOfRun(requests, i);
    }
  }

  /** When names that were written and added to, once read back, are those that were to be written. */
  lemma ReadBackIsAllIff(request: Request, added: seq<CString>)
    ensures
      var names := AnsweredNames(request.metric, request.answer);
      var allOpened, repeated := AllOpened(request, |names|), ReadNames(WriteNames(Kept(request) + added)) == names;
      && (added == [] ==> (repeated <==> allOpened && AllFit(names)))
      && (allOpened ==> (repeated <==> added == [] && AllFit(names)))
      && (AllFit(Kept(request) + added) ==> (repeated <==> Kept(request) + added == names))
  {
    hide ReadNames, WriteNames, Fits, AnsweredNames, KeptNames, TotalLength;
    var names, written := AnsweredNames(request.metric, request.answer), Kept(request) + added;
    KeptAreShorter(request, |request.answer|);
    if AllOpened(request, |request.answer|) {
      AllOpenedKeepsAll(request, |request.answer|);
    }
    assert names[..|names|] == names;
    assert Kept(request) + [] == Kept(request);
    NamesComeBackNoLonger(written);
    RoundTripIffFits(written);
    ReadBackCount(written);
  }

  lemma ListBeforeFile(request: Request)
    ensures ListAfter(Absent, [], request) == AnsweredNames(request.metric, request.answer)
  {
    hide AnsweredNames;
  }

  lemma ListOfWritten(names: seq<CString>, request: Request)
    requires names != [] && request.readable
    ensures ListAfter(Absent, names, request) == ReadNames(WriteNames(names))
  {
    hide ReadNames, WriteNames;
  }

  /** When a later registration that reads the file repeats the names of the writing one: if nobody added to the file,
      exactly when the file could be opened for each of the names and all of them are within the file's limits; if it
      could be opened for each, exactly when moreover nobody added; and if all that was written is within the limits,
      exactly when just those names were written. */
  lemma {:induction false} LaterListsEqualIffFits(requests: seq<Request>, i: nat)
    requires FirstWriter(requests) < i < |requests| && requests[i].readable
    ensures
      var p := FirstWriter(requests);
      var names := AnsweredNames(requests[p].metric, requests[p].answer);
      var added, written := AllAdded(requests[p + 1..i]), Written(requests, i);
      var allOpened, repeated := AllOpened(requests[p], |names|), Registered(Absent, requests)[i] == names;
      && Registered(Absent, requests)[p] == names
      && (added == [] ==> (repeated <==> allOpened && AllFit(names)))
      && (allOpened ==> (repeated <==> added == [] && AllFit(names)))
      && (AllFit(written) ==> (repeated <==> written == names))
  {
    hide ReadNames, WriteNames, AllFit, AllOpened, Registered, AnsweredNames, Kept, AllAdded, ListAfter;
    var p := FirstWriter(requests);
    RunsShareOneList(requests);
    WrittenNothingIff(requests, p);
    ListOfWritten(Written(requests, i), requests[i]);
    ListBeforeFile(requests[p]);
    ReadBackIsAllIff(requests[p], AllAdded(requests[p + 1..i]));
  }
}
