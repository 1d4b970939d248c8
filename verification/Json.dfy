/** The streaming writer of JSON objects: src/common/json.c. */
module Json {
  import opened Options

  const BUFFER_SIZE := 4096

  datatype Property = Property(name: string, value: string)

  // The text of an object.

  predicate Special(c: char) {
    c == '"' || c == '\\'
  }

  function EscapedChar(c: char): string {
    if Special(c) then ['\\', c] else [c]
  }

  function Escaped(s: string): string {
    if s == [] then [] else EscapedChar(s[0]) + Escaped(s[1..])
  }

  function Quoted(s: string): string {
    "\"" + Escaped(s) + "\""
  }

  function Member(p: Property, first: bool): string {
    (if first then "" else ",") + Quoted(p.name) + ":" + Quoted(p.value)
  }

  /** The members of an object of which `written` have been written already. */
  function Members(props: seq<Property>, written: nat): string {
    if props == [] then "" else Member(props[0], written == 0) + Members(props[1..], written + 1)
  }

  function Object(props: seq<Property>): string {
    "{" + Members(props, 0) + "}"
  }

  // Reading it back.

  /** The string that ends with the first quote that is not escaped, and what comes after it. */
  function ReadString(s: string): Option<(string, string)> {
    if s == [] then None
    else if s[0] == '"' then Some(([], s[1..]))
    else if s[0] == '\\' then
      if |s| < 2 then None
      else match ReadString(s[2..]) case None => None case Some((head, rest)) => Some(([s[1]] + head, rest))
    else match ReadString(s[1..]) case None => None case Some((head, rest)) => Some(([s[0]] + head, rest))
  }

  function ReadQuoted(s: string): Option<(string, string)> {
    if s == [] || s[0] != '"' then None else ReadString(s[1..])
  }

  function ReadMember(s: string): Option<(Property, string)> {
    match ReadQuoted(s)
    case None => None
    case Some((name, rest)) =>
      if rest == [] || rest[0] != ':' then None
      else
        match ReadQuoted(rest[1..])
        case None => None
        case Some((value, rest')) => Some((Property(name, value), rest'))
  }

  /** The members up to the closing brace, which must be the end; `first` tells that there has been
      none before. Reading takes at most `fuel` members. */
  function ReadMembers(s: string, first: bool, fuel: nat): Option<seq<Property>>
    decreases fuel
  {
    if s == "}" then Some([])
    else if fuel == 0 || s == [] || (!first && s[0] != ',') then None
    else match ReadMember(if first then s else s[1..])
      case None => None
      case Some((p, rest)) => match ReadMembers(rest, false, fuel - 1) case None => None case Some(ps) => Some([p] + ps)
  }

  function ReadObject(s: string): Option<seq<Property>> {
    if s == [] || s[0] != '{' then None else ReadMembers(s[1..], true, |s|)
  }

  lemma {:induction false} StringRoundTrip(s: string, rest: string)
    ensures ReadString(Escaped(s) + "\"" + rest) == Some((s, rest))
  {
    var text := Escaped(s) + "\"" + rest;
    if s == [] {
      assert text[0] == '"' && text[1..] == rest;
    } else {
      StringRoundTrip(s[1..], rest);
      var tail := Escaped(s[1..]) + "\"" + rest;
      if s[0] == '"' || s[0] == '\\' {
        assert text == ['\\', s[0]] + tail;
        assert text[2..] == tail;
      } else {
        assert text == [s[0]] + tail;
        assert text[1..] == tail;
      }
      assert s == [s[0]] + s[1..];
    }
  }

  lemma QuotedRoundTrip(s: string, rest: string)
    ensures ReadQuoted(Quoted(s) + rest) == Some((s, rest))
  {
    StringRoundTrip(s, rest);
    assert (Quoted(s) + rest)[1..] == Escaped(s) + "\"" + rest;
  }

  lemma MemberRoundTrip(p: Property, rest: string)
    ensures ReadMember(Member(p, true) + rest) == Some((p, rest))
  {
    var behind := Quoted(p.value) + rest;
    QuotedRoundTrip(p.name, ":" + behind);
    QuotedRoundTrip(p.value, rest);
    assert Member(p, true) + rest == Quoted(p.name) + (":" + behind);
    assert (":" + behind)[1..] == behind;
  }

  lemma OneMember(p: Property, first: bool, rest: string, fuel: nat, ps: seq<Property>)
    requires fuel > 0 && ReadMembers(rest, false, fuel - 1) == Some(ps)
    ensures ReadMembers(Member(p, first) + rest, first, fuel) == Some([p] + ps)
  {
    var text, member := Member(p, first) + rest, Member(p, true) + rest;
    MemberRoundTrip(p, rest);
    MemberStarts(p, first, rest);
    assert text != "}" && text != [];
    assert (if first then text else text[1..]) == member;
  }

  lemma MemberStarts(p: Property, first: bool, rest: string)
    ensures var text := Member(p, first) + rest;
      && text != [] && text[0] == (if first then '"' else ',')
      && (if first then text else text[1..]) == Member(p, true) + rest
  {
    if first {
      assert Member(p, true) == Quoted(p.name) + ":" + Quoted(p.value);
    } else {
      assert Member(p, false) == "," + Member(p, true);
    }
  }

  lemma {:induction false} MembersRoundTrip(props: seq<Property>, written: nat, fuel: nat)
    requires fuel >= |props|
    ensures ReadMembers(Members(props, written) + "}", written == 0, fuel) == Some(props)
  {
    if props == [] {
      assert Members(props, written) + "}" == "}";
    } else {
      var members := Members(props[1..], written + 1);
      MembersRoundTrip(props[1..], written + 1, fuel - 1);
      OneMember(props[0], written == 0, members + "}", fuel, props[1..]);
      Regroup(Member(props[0], written == 0), members, "}");
      assert props == [props[0]] + props[1..];
    }
  }

  lemma {:induction false} MembersAreLonger(props: seq<Property>, written: nat)
    ensures |Members(props, written)| >= |props|
  {
    if props != [] {
      MembersAreLonger(props[1..], written + 1);
    }
  }

  /** Every object can be read back from its text. */
  lemma ObjectRoundTrip(props: seq<Property>)
    ensures ReadObject(Object(props)) == Some(props)
  {
    MembersAreLonger(props, 0);
    MembersRoundTrip(props, 0, |Object(props)|);
    assert Object(props)[1..] == Members(props, 0) + "}";
  }

  /** The data of some blobs, one after the other. */
  ghost function Concat(blobs: seq<string>): string {
    if blobs == [] then [] else Concat(blobs[..|blobs| - 1]) + blobs[|blobs| - 1]
  }

  /** guac_common_json_state, along with the blobs sent on its stream. */
  class State {
    const buffer: array<char>
    var size: int
    var propertiesWritten: int
    ghost var blobs: seq<string>
    ghost var output: string        // everything written so far, sent or not

    ghost predicate Valid()
      reads this, buffer
    {
      && buffer.Length == BUFFER_SIZE && 0 <= size <= BUFFER_SIZE
      && (forall k :: 0 <= k < |blobs| ==> 1 <= |blobs[k]| <= BUFFER_SIZE)
      && output == Concat(blobs) + buffer[..size]
    }

    constructor ()
      ensures Valid() && fresh(buffer) && blobs == [] && size == 0
    {
      buffer := new char[BUFFER_SIZE];
      size, propertiesWritten, blobs, output := 0, 0, [], [];
    }

    /** guac_common_json_flush */
    method Flush()
      requires Valid()
      modifies this`size, this`blobs
      ensures Valid() && size == 0
      ensures blobs == if old(size) > 0 then old(blobs) + [old(buffer[..size])] else old(blobs)
    {
      if size > 0 {
        blobs := blobs + [buffer[..size]];
        assert blobs[..|blobs| - 1] == old(blobs);
        size := 0;
      }
    }

    /** guac_common_json_write: appends data, and tells whether a blob has been sent. */
    method Write(data: string) returns (written: bool)
      requires Valid()
      modifies this`size, this`blobs, this`output, buffer
      ensures Valid() && output == old(output) + data && old(blobs) <= blobs
      ensures written <==> |blobs| > old(|blobs|)
    {
      written := false;
      var rest := data;
      while |rest| > 0
        invariant Valid() && old(blobs) <= blobs && output + rest == old(output) + data
        invariant written <==> |blobs| > old(|blobs|)
      {
        var length := if |rest| > BUFFER_SIZE then BUFFER_SIZE else |rest|;
        if size + length > BUFFER_SIZE {
          Flush();
          written := true;
        }
        Append(rest[..length]);
        assert rest == rest[..length] + rest[length..];
        rest := rest[length..];
      }
    }

    /** memcpy to the end of the buffer. */
    method Append(data: string)
      requires Valid() && size + |data| <= BUFFER_SIZE
      modifies this`size, this`output, buffer
      ensures Valid() && output == old(output) + data
    {
      forall k | 0 <= k < |data| {
        buffer[size + k] := data[k];
      }
      size := size + |data|;
      output := output + data;
      assert buffer[..size] == old(buffer[..size]) + data;
    }

    /** Writes what there is of a string between two of its characters, if anything. */
    method WritePart(str: string, start: int, current: int) returns (written: bool)
      requires Valid() && 0 <= start <= current <= |str|
      modifies this`size, this`blobs, this`output, buffer
      ensures Valid() && output == old(output) + str[start..current] && old(blobs) <= blobs
      ensures written <==> |blobs| > old(|blobs|)
    {
      written := false;
      if current != start {
        written := Write(str[start..current]);
      }
    }

    /** guac_common_json_write_string */
    method WriteString(str: string) returns (written: bool)
      requires Valid()
      modifies this`size, this`blobs, this`output, buffer
      ensures Valid() && output == old(output) + Quoted(str) && old(blobs) <= blobs
      ensures written <==> |blobs| > old(|blobs|)
    {
      written := Write("\"");
      ghost var before := output;
      var start, current, w := 0, 0, false;
      assert str[..0] == [] && str[0..0] == [];
      while current < |str|
        invariant 0 <= start <= current <= |str| && Valid() && old(blobs) <= blobs
        invariant written <==> |blobs| > old(|blobs|)
        invariant output + str[start..current] == before + Escaped(str[..current])
      {
        ghost var out := output;
        if Special(str[current]) {
          w := WritePart(str, start, current);
          written := written || w;
          w := Write("\\");
          written := written || w;
          OneCharacterMore(str, start, current, before, out, output);
          start := current;
        } else {
          OneCharacterMore(str, start, current, before, out, out);
        }
        current := current + 1;
      }
      assert str[..|str|] == str;
      w := WritePart(str, start, current);
      written := written || w;
      w := Write("\"");
      written := written || w;
      QuotedIs(old(output), str);
    }

    /** guac_common_json_write_property */
    method WriteProperty(p: Property) returns (written: bool)
      requires Valid() && propertiesWritten >= 0
      modifies this`size, this`blobs, this`output, this`propertiesWritten, buffer
      ensures Valid() && output == old(output) + Member(p, old(propertiesWritten) == 0) && old(blobs) <= blobs
      ensures written <==> |blobs| > old(|blobs|)
      ensures propertiesWritten == old(propertiesWritten) + 1
    {
      written := false;
      if propertiesWritten != 0 {
        written := Write(",");
      }
      var w := WriteString(p.name);
      written := written || w;
      w := Write(":");
      written := written || w;
      w := WriteString(p.value);
      written := written || w;
      MemberIs(old(output), p, propertiesWritten == 0);
      propertiesWritten := propertiesWritten + 1;
    }

    /** guac_common_json_begin_object */
    method BeginObject()
      requires buffer.Length == BUFFER_SIZE && Valid()
      modifies this`size, this`blobs, this`output, this`propertiesWritten, buffer
      ensures Valid() && output == Concat(blobs) + "{" && blobs == old(blobs) && propertiesWritten == 0
    {
      size := 0;
      propertiesWritten := 0;
      output := Concat(blobs);
      Append("{");
    }

    /** guac_common_json_end_object */
    method EndObject() returns (written: bool)
      requires Valid()
      modifies this`size, this`blobs, this`output, buffer
      ensures Valid() && output == old(output) + "}" && old(blobs) <= blobs
      ensures written <==> |blobs| > old(|blobs|)
    {
      written := Write("}");
    }

    /** All the properties of an object. */
    method WriteProperties(props: seq<Property>)
      requires Valid() && propertiesWritten == 0
      modifies this`size, this`blobs, this`output, this`propertiesWritten, buffer
      ensures Valid() && output == old(output) + Members(props, 0)
    {
      var i := 0;
      while i < |props|
        invariant 0 <= i <= |props| && Valid() && propertiesWritten == i
        invariant output + Members(props[i..], i) == old(output) + Members(props, 0)
      {
        ghost var before := output;
        var _ := WriteProperty(props[i]);
        assert props[i..][1..] == props[i + 1..];
        Regroup(before, Member(props[i], i == 0), Members(props[i + 1..], i + 1));
        i := i + 1;
      }
    }

    /** What callers do with it: the blobs of a whole object can be read back. */
    method WriteObject(props: seq<Property>)
      requires Valid() && blobs == []
      modifies this`size, this`blobs, this`output, this`propertiesWritten, buffer
      ensures Valid() && Concat(blobs) == Object(props) && ReadObject(Concat(blobs)) == Some(props)
    {
      BeginObject();
      assert output == "{";
      WriteProperties(props);
      var _ := EndObject();
      Flush();
      assert Concat(blobs) + [] == output;
      ObjectRoundTrip(props);
    }
  }

  lemma QuotedIs(before: string, s: string)
    ensures before + "\"" + Escaped(s) + "\"" == before + Quoted(s)
  {
  }

  lemma MemberIs(before: string, p: Property, first: bool)
    ensures first ==> before + Quoted(p.name) + ":" + Quoted(p.value) == before + Member(p, true)
    ensures !first ==> before + "," + Quoted(p.name) + ":" + Quoted(p.value) == before + Member(p, false)
  {
    if first {
      assert "" + Quoted(p.name) == Quoted(p.name);
    }
  }

  lemma {:induction false} EscapedOneMore(s: string, c: char)
    ensures Escaped(s + [c]) == Escaped(s) + EscapedChar(c)
  {
    if s == [] {
      assert s + [c] == [c] && [c][1..] == [];
    } else {
      EscapedOneMore(s[1..], c);
      assert (s + [c])[1..] == s[1..] + [c];
      Regroup(EscapedChar(s[0]), Escaped(s[1..]), EscapedChar(c));
    }
  }

  lemma Regroup(a: string, b: string, c: string)
    ensures (a + b) + c == a + (b + c)
  {
  }

  /** One step of writing a string of which the part from `start` has not been written yet. */
  lemma OneCharacterMore(str: string, start: int, at: int, before: string, out: string, out': string)
    requires 0 <= start <= at < |str| && out + str[start..at] == before + Escaped(str[..at])
    ensures !Special(str[at]) ==> out + str[start..at + 1] == before + Escaped(str[..at + 1])
    ensures Special(str[at]) && out' == out + str[start..at] + "\\" ==>
              out' + str[at..at + 1] == before + Escaped(str[..at + 1])
  {
    assert str[..at + 1] == str[..at] + [str[at]];
    EscapedOneMore(str[..at], str[at]);
    Regroup(before, Escaped(str[..at]), EscapedChar(str[at]));
    if Special(str[at]) {
      Regroup(out + str[start..at], "\\", [str[at]]);
      assert "\\" + [str[at]] == EscapedChar(str[at]);
      assert str[at..at + 1] == [str[at]];
    } else {
      assert str[start..at + 1] == str[start..at] + [str[at]];
      Regroup(out, str[start..at], [str[at]]);
    }
  }
}
