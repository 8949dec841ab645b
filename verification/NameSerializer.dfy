/** The buffer of NUL-terminated counter names that rank 0 sends to the other ranks. */
module NameSerializer {
  import opened CStrings

  function Serialize(names: seq<CString>): string {
    if names == [] then "" else names[0] + "\0" + Serialize(names[1..])
  }

  /** The size as the first pass adds it up. */
  function TotalSize(names: seq<CString>): nat {
    if names == [] then 0 else TotalSize(names[..|names| - 1]) + |names[|names| - 1]| + 1
  }

  /** The terminated strings in the buffer, one after the other. */
  function Deserialize(buffer: string): seq<CString> {
    var n := IndexOf(buffer, '\0');
    if n == |buffer| then [] else [buffer[..n]] + Deserialize(buffer[n + 1..])
  }

  lemma SerializeCons(name: CString, names: seq<CString>)
    ensures Serialize([name] + names) == name + "\0" + Serialize(names)
  {
    assert ([name] + names)[1..] == names;
  }

  lemma SerializeNothing()
    ensures Serialize([]) == "" && TotalSize([]) == 0
  {
  }

  lemma DeserializeCons(name: CString, rest: string)
    ensures Deserialize("") == []
    ensures Deserialize(name + "\0" + rest) == [name] + Deserialize(rest)
  {
    IndexOfFirst(name, "\0" + rest, '\0');
    assert name + "\0" + rest == name + ("\0" + rest);
    assert (name + "\0" + rest)[|name| + 1..] == rest;
  }

  lemma {:induction false} DeserializeSerialize(names: seq<CString>)
    ensures Deserialize(Serialize(names)) == names
  {
    hide Serialize, Deserialize;
    if names == [] {
      SerializeNothing();
      DeserializeCons("", "");
    } else {
      var rest := names[1..];
      assert names == [names[0]] + rest;
      SerializeCons(names[0], rest);
      DeserializeCons(names[0], Serialize(rest));
      DeserializeSerialize(rest);
    }
  }

  lemma SerializeInjective(m: seq<CString>, n: seq<CString>)
    requires Serialize(m) == Serialize(n)
    ensures m == n
  {
    DeserializeSerialize(m);
    DeserializeSerialize(n);
  }

  /** Every buffer that ends with its last terminator is the serialisation of the names in it. */
  lemma {:induction false} SerializeDeserialize(buffer: string)
    requires buffer != "" ==> buffer[|buffer| - 1] == '\0'
    ensures Serialize(Deserialize(buffer)) == buffer
    decreases |buffer|
  {
    hide Serialize, IndexOf;
    var n := IndexOf(buffer, '\0');
    if n < |buffer| {
      var rest := buffer[n + 1..];
      SerializeDeserialize(rest);
      SerializeCons(buffer[..n], Deserialize(rest));
      assert buffer == buffer[..n] + "\0" + rest;
    } else {
      assert buffer[..n] == buffer;
      SerializeNothing();
    }
  }

  /** Appending one name, which is what one round of the second pass does. */
  lemma SerializeAppend(names: seq<CString>, name: CString)
    ensures Serialize(names + [name]) == Serialize(names) + name + "\0"
  {
    SerializeConcat(names, [name]);
    SerializeCons(name, []);
    assert [name] + [] == [name];
  }

  /** The first pass computes the size of what the second pass writes. */
  lemma {:induction false} SerializedSize(names: seq<CString>)
    ensures |Serialize(names)| == TotalSize(names)
  {
    if names != [] {
      var init, last := names[..|names| - 1], names[|names| - 1];
      SerializedSize(init);
      SerializeAppend(init, last);
      assert names == init + [last];
    }
  }

  lemma TotalSizeAppend(names: seq<CString>, name: CString)
    ensures TotalSize(names + [name]) == TotalSize(names) + |name| + 1
  {
    assert (names + [name])[..|names|] == names;
  }

  lemma {:induction false} SerializeConcat(m: seq<CString>, n: seq<CString>)
    ensures Serialize(m + n) == Serialize(m) + Serialize(n)
  {
    hide Serialize;
    SerializeNothing();
    if m == [] {
      assert m + n == n;
    } else {
      SerializeConcat(m[1..], n);
      SerializeCons(m[0], m[1..]);
      SerializeCons(m[0], m[1..] + n);
      assert m == [m[0]] + m[1..] && m + n == [m[0]] + (m[1..] + n);
    }
  }
}
