/** The file of metric names: one name to a line, read back through a buffer of 512 bytes. */
module NameFile {
  import opened CStrings
  import opened PluginTypes

  const BUFFER_SIZE: nat := 512

  datatype File = Absent | Present(content: CString)

  /** How much `fgets` takes from the front of the text with room for `room` characters: up to and with
      the first newline, if there is one in reach. */
  function Taken(text: string, room: nat): (n: nat)
    ensures n <= |text| && n <= room
    ensures text != "" && room > 0 ==> n > 0
  {
    if text == "" || room == 0 then 0
    else if text[0] == '\n' then 1
    else 1 + Taken(text[1..], room - 1)
  }

  function StripNewline(line: CString): CString
    requires line != ""
  {
    if line[|line| - 1] == '\n' then line[..|line| - 1] else line
  }

  function ReadNames(text: CString): seq<CString> {
    if text == "" then []
    else
      var n := Taken(text, BUFFER_SIZE - 1);
      [StripNewline(text[..n])] + ReadNames(text[n..])
  }

  function WriteNames(names: seq<CString>): CString {
    if names == [] then "" else names[0] + "\n" + WriteNames(names[1..])
  }

  // ---- what becomes of one name ----

  predicate OneLine(name: string) {
    '\n' !in name
  }

  /** The file format's limits on a name. */
  predicate Fits(name: string) {
    OneLine(name) && |name| <= BUFFER_SIZE - 2
  }

  /** A name without newline, as it comes back. */
  function Pieces(name: CString): seq<CString> {
    if |name| < BUFFER_SIZE - 1 then [name]
    else [name[..BUFFER_SIZE - 1]] + Pieces(name[BUFFER_SIZE - 1..])
  }

  function Concat(pieces: seq<string>): string {
    if pieces == [] then "" else pieces[0] + Concat(pieces[1..])
  }

  lemma {:induction false} PiecesMakeTheName(name: CString)
    ensures Concat(Pieces(name)) == name
    ensures |Pieces(name)| == CeilDiv(|name| + 1, 511) == (|name| + 511) / 511
    ensures forall i :: 0 <= i < |Pieces(name)| - 1 ==> |Pieces(name)[i]| == 511
    decreases |name|
  {
    if |name| < BUFFER_SIZE - 1 {
      assert [name][1..] == [];
    } else {
      var rest := name[BUFFER_SIZE - 1..];
      PiecesMakeTheName(rest);
      assert Pieces(name)[1..] == Pieces(rest);
      assert name == name[..BUFFER_SIZE - 1] + rest;
    }
  }

  function AllPieces(names: seq<CString>): seq<CString> {
    if names == [] then [] else Pieces(names[0]) + AllPieces(names[1..])
  }

  lemma {:induction false} TakenWithin(line: string, rest: string, room: nat)
    ensures Taken(line + "\n" + rest, room) <= |line| + 1
    ensures OneLine(line) ==> Taken(line + "\n" + rest, room) == if room <= |line| then room else |line| + 1
    ensures Taken(line + "\n" + rest, room) == Taken(line + "\n", room)
  {
    if line != "" && room > 0 {
      assert (line + "\n" + rest)[1..] == line[1..] + "\n" + rest;
      assert (line + "\n")[1..] == line[1..] + "\n";
      TakenWithin(line[1..], rest, room - 1);
    }
  }

  lemma ReadStep(text: CString)
    ensures text == "" ==> ReadNames(text) == []
    ensures text != "" ==>
              var n := Taken(text, BUFFER_SIZE - 1); ReadNames(text) == [StripNewline(text[..n])] + ReadNames(text[n..])
  {
  }

  /** A newline always ends a piece, so what follows is read as if it stood alone. */
  lemma {:induction false} LinesReadSeparately(line: CString, rest: CString)
    ensures ReadNames(line + "\n" + rest) == ReadNames(line + "\n") + ReadNames(rest)
    decreases |line|
  {
    hide ReadNames, Taken, StripNewline;
    var alone: CString, text: CString := line + "\n", line + "\n" + rest;
    var n := Taken(text, BUFFER_SIZE - 1);
    TakenWithin(line, rest, BUFFER_SIZE - 1);
    ReadStep(text);
    ReadStep(alone);
    assert text[..n] == alone[..n];
    if n <= |line| {
      assert text[n..] == line[n..] + "\n" + rest;
      assert alone[n..] == line[n..] + "\n";
      LinesReadSeparately(line[n..], rest);
    } else {
      assert text[n..] == rest && alone[n..] == "";
      ReadStep("");
    }
  }

  lemma {:induction false} LineReadsAsPieces(name: CString)
    requires OneLine(name)
    ensures ReadNames(name + "\n") == Pieces(name)
    decreases |name|
  {
    var text: CString := name + "\n";
    var n := Taken(text, BUFFER_SIZE - 1);
    TakenWithin(name, "", BUFFER_SIZE - 1);
    assert text + "" == text;
    if n <= |name| {
      assert text[..n] == name[..n] && text[n..] == name[n..] + "\n";
      assert StripNewline(text[..n]) == name[..n];
      LineReadsAsPieces(name[n..]);
    } else {
      assert text[..n] == text && text[n..] == "";
      assert StripNewline(text) == name;
    }
  }

  /** Every name comes back as its pieces, in order. */
  lemma {:induction false} ReadBack(names: seq<CString>)
    requires forall i :: 0 <= i < |names| ==> OneLine(names[i])
    ensures ReadNames(WriteNames(names)) == AllPieces(names)
  {
    if names != [] {
      LinesReadSeparately(names[0], WriteNames(names[1..]));
      LineReadsAsPieces(names[0]);
      ReadBack(names[1..]);
    }
  }

  /** A line of length L comes back as ceil((L + 1) / 511) pieces that make it up, all but the last of 511 bytes. */
  lemma LineComesBackInPieces(name: CString)
    requires '\n' !in name
    ensures
      var pieces := ReadNames(name + "\n");
      && |pieces| == (|name| + 511) / 511
      && Concat(pieces) == name
      && forall i :: 0 <= i < |pieces| - 1 ==> |pieces[i]| == 511
  {
    LineReadsAsPieces(name);
    PiecesMakeTheName(name);
  }

  // ---- exactly when the list comes back ----

  predicate AllFit(names: seq<string>) {
    forall i :: 0 <= i < |names| ==> Fits(names[i])
  }

  lemma LineCount(line: CString)
    ensures |ReadNames(line + "\n")| >= 1
    ensures |ReadNames(line + "\n")| == 1 <==> Fits(line)
    ensures Fits(line) ==> ReadNames(line + "\n") == [line]
  {
    var text: CString := line + "\n";
    TakenWithin(line, "", BUFFER_SIZE - 1);
    assert text + "" == text;
    var n := Taken(text, BUFFER_SIZE - 1);
    if Fits(line) {
      LineReadsAsPieces(line);
    } else if n == |text| {
      TakenWholeLine(line, BUFFER_SIZE - 1);
      assert false;
    } else {
      assert text[n..] != "";
    }
  }

  lemma {:induction false} TakenWholeLine(line: string, room: nat)
    requires Taken(line + "\n", room) == |line| + 1
    ensures OneLine(line) && |line| < room
  {
    if line != "" {
      assert (line + "\n")[1..] == line[1..] + "\n";
      TakenWholeLine(line[1..], room - 1);
    }
  }

  lemma {:induction false} ReadBackCount(names: seq<CString>)
    ensures |ReadNames(WriteNames(names))| >= |names|
    ensures |ReadNames(WriteNames(names))| == |names| ==> AllFit(names)
  {
    if names != [] {
      LinesReadSeparately(names[0], WriteNames(names[1..]));
      LineCount(names[0]);
      ReadBackCount(names[1..]);
      if |ReadNames(WriteNames(names))| == |names| {
        assert forall i :: 0 < i < |names| ==> names[i] == names[1..][i - 1];
      }
    }
  }

  lemma {:induction false} FittingNamesComeBack(names: seq<CString>)
    requires AllFit(names)
    ensures ReadNames(WriteNames(names)) == names
  {
    if names != [] {
      LinesReadSeparately(names[0], WriteNames(names[1..]));
      LineCount(names[0]);
      FittingNamesComeBack(names[1..]);
    }
  }

  /** A list of names is read back as it was written exactly when every name has at most 510 bytes and no newline. */
  lemma {:induction false} RoundTripIffFits(names: seq<CString>)
    ensures ReadNames(WriteNames(names)) == names <==> AllFit(names)
    ensures ReadNames(WriteNames(names)) == names <==>
            forall i :: 0 <= i < |names| ==> |names[i]| <= 510 && '\n' !in names[i]
  {
    ReadBackCount(names);
    if AllFit(names) {
      FittingNamesComeBack(names);
    }
  }

  lemma WriteNamesCons(name: CString, names: seq<CString>)
    ensures WriteNames([]) == ""
    ensures WriteNames([name] + names) == name + "\n" + WriteNames(names)
  {
    assert ([name] + names)[1..] == names;
  }

  // ---- what comes back is never longer than what was written ----

  function TotalLength(names: seq<string>): nat {
    if names == [] then 0 else |names[0]| + TotalLength(names[1..])
  }

  lemma {:induction false} TotalLengthConcat(m: seq<string>, n: seq<string>)
    ensures TotalLength(m + n) == TotalLength(m) + TotalLength(n)
  {
    if m == [] {
      assert m + n == n;
    } else {
      assert (m + n)[1..] == m[1..] + n;
      TotalLengthConcat(m[1..], n);
    }
  }

  lemma {:induction false} LineComesBackNoLonger(line: CString)
    ensures TotalLength(ReadNames(line + "\n")) <= |line|
    decreases |line|
  {
    hide ReadNames, Taken;
    var text: CString := line + "\n";
    var n := Taken(text, BUFFER_SIZE - 1);
    TakenWithin(line, "", BUFFER_SIZE - 1);
    assert text + "" == text;
    ReadStep(text);
    var rest := ReadNames(text[n..]);
    assert ReadNames(text)[1..] == rest;
    if n <= |line| {
      assert text[n..] == line[n..] + "\n";
      LineComesBackNoLonger(line[n..]);
    } else {
      assert text[n..] == "";
      ReadStep("");
    }
  }

  lemma {:induction false} NamesComeBackNoLonger(names: seq<CString>)
    ensures TotalLength(ReadNames(WriteNames(names))) <= TotalLength(names)
  {
    hide ReadNames;
    if names == [] {
      ReadStep("");
    } else {
      var rest := WriteNames(names[1..]);
      LinesReadSeparately(names[0], rest);
      LineComesBackNoLonger(names[0]);
      NamesComeBackNoLonger(names[1..]);
      TotalLengthConcat(ReadNames(names[0] + "\n"), ReadNames(rest));
    }
  }

  lemma {:induction false} WriteNamesConcat(m: seq<CString>, n: seq<CString>)
    ensures WriteNames(m + n) == WriteNames(m) + WriteNames(n)
  {
    hide WriteNames;
    WriteNamesCons("", []);
    if m == [] {
      assert m + n == n;
    } else {
      WriteNamesConcat(m[1..], n);
      WriteNamesCons(m[0], m[1..]);
      WriteNamesCons(m[0], m[1..] + n);
      assert m == [m[0]] + m[1..] && m + n == [m[0]] + (m[1..] + n);
    }
  }

  lemma WriteNamesAppend(names: seq<CString>, name: CString)
    ensures WriteNames(names + [name]) == WriteNames(names) + name + "\n"
  {
    hide WriteNames;
    WriteNamesConcat(names, [name]);
    WriteNamesCons(name, []);
    assert [name] + [] == [name];
  }

  // ---- the file on disk ----

  function Append(file: File, name: CString): File {
    match file
    case Absent => Present(name + "\n")
    case Present(content) => Present(content + name + "\n")
  }

  class Disk {
    var file: File

    constructor (file: File)
      ensures this.file == file
    {
      this.file := file;
    }

    /** `openable`: whether the file could be opened for appending. */
    method AddName(name: CString, openable: bool)
      modifies this
      ensures file == if openable then Append(old(file), name) else old(file)
    {
      if openable {
        match file
        case Absent => file := Present(name + "\n");
        case Present(content) => file := Present(content + name + "\n");
      }
    }

    /** One `fgets` into a buffer of 512 bytes. */
    static method GetLine(text: CString, pos: nat) returns (n: nat)
      requires pos <= |text|
      ensures n == Taken(text[pos..], 511)
      ensures n <= 511 && pos + n <= |text|
      ensures forall k :: pos <= k < pos + n - 1 ==> text[k] != '\n'
      ensures n == 511 || pos + n == |text| || (n > 0 && text[pos + n - 1] == '\n')
    {
      n := 0;
      while n < BUFFER_SIZE - 1 && pos + n < |text|
        invariant pos + n <= |text| && n <= BUFFER_SIZE - 1
        invariant forall k :: pos <= k < pos + n ==> text[k] != '\n'
        invariant Taken(text[pos..], BUFFER_SIZE - 1) == n + Taken(text[pos + n..], BUFFER_SIZE - 1 - n)
      {
        assert text[pos + n..][1..] == text[pos + n + 1..];
        n := n + 1;
        if text[pos + n - 1] == '\n' {
          return;
        }
      }
    }

    /** `readable`: whether a file that is there could be opened for reading. */
    method ReadCountersList(readable: bool) returns (found: bool, names: seq<CString>)
      ensures found <==> file.Present? && readable
      ensures names == if file.Present? && readable then ReadNames(file.content) else []
    {
      hide ReadNames, StripNewline, Taken;
      found, names := file.Present? && readable, [];
      if !found {
        return;
      }
      var text := file.content;
      var pos: nat := 0;
      assert text[0..] == text;
      while pos < |text|
        invariant pos <= |text|
        invariant names + ReadNames(text[pos..]) == ReadNames(text)
      {
        var n := GetLine(text, pos);
        ReadStep(text[pos..]);
        var line := text[pos..pos + n];
        assert text[pos..][..n] == line && text[pos..][n..] == text[pos + n..];
        names := names + [StripNewline(line)];
        pos := pos + n;
      }
      ReadStep("");
      assert text[pos..] == "";
    }
  }
}
