/** ArmaMessage: an optional function name in front of the data. */
module WireMessage {
  import opened WireFormat
  import opened WireParser
  import opened WireRoundTrip

  /** The fields of an ArmaMessage; data is Null when hasData is false. */
  datatype Message = Message(hasFunc: bool, name: string, data: Value)

  /** The parsed message and the value ParseArmaData returns, or the way the process left the parser. */
  datatype MessageOutcome = Parsed(msg: Message, ok: bool) | Failed(how: Outcome)

  predicate IsTag(c: char) {
    c in [AD_STRING, AD_FLOAT, AD_SIGNED, AD_UNSIGNED, AD_ADDRESS, AD_ARRAY]
  }

  /** What DeparseArmaData appends for a message. */
  function PrintMessage(m: Message): string {
    (if m.hasFunc then m.name + (if m.data.Null? then "" else [AD_SEPERATOR]) else "") + Print(m.data)
  }

  /** Everything before the first separator. */
  function NameOf(text: string): (name: string)
    ensures name <= text && AD_SEPERATOR !in name
    ensures name == text || text[|name|] == AD_SEPERATOR
  {
    if text == "" || text[0] == AD_SEPERATOR then "" else [text[0]] + NameOf(text[1..])
  }

  function WithData(hasFunc: bool, name: string, data: Outcome): MessageOutcome {
    match data
    case Done(v) => Parsed(Message(hasFunc, name, v), true)
    case Refused => Parsed(Message(hasFunc, name, Null), false)
    case _ => Failed(data)
  }

  /** ParseArmaData of a fresh message. */
  function ParseMessage(text: string): MessageOutcome {
    if text == "" then Parsed(Message(false, "", Null), false)
    else if IsTag(text[0]) then WithData(false, "", Build(text))
    else
      var name := NameOf(text);
      if name == text then Parsed(Message(true, name, Null), true)
      else if |name| + 1 == |text| then Failed(PastEnd)
      else WithData(true, name, Build(text[|name| + 1..]))
  }

  /** The loop that collects the function name up to the first separator. */
  method ReadName(text: string) returns (pos: nat, name: string)
    ensures name == NameOf(text) && pos == |name|
  {
    hide *;
    pos, name := 0, "";
    while pos != |text| && text[pos] != AD_SEPERATOR
      invariant pos <= |text| && name == text[..pos] && AD_SEPERATOR !in name
    {
      name := name + [text[pos]];
      pos := pos + 1;
    }
    NameEndsHere(text, pos);
  }

  lemma {:induction false} NameEndsHere(text: string, pos: nat)
    requires pos <= |text| && AD_SEPERATOR !in text[..pos]
    requires pos == |text| || text[pos] == AD_SEPERATOR
    ensures NameOf(text) == text[..pos]
  {
    assert |NameOf(text)| == pos;
  }

  method ParseArmaMessage(text: string) returns (r: MessageOutcome)
    ensures r == ParseMessage(text)
  {
    hide Build;
    if text == "" {
      return Parsed(Message(false, "", Null), false);
    }
    var pos := 0;
    var hasFunc := !IsTag(text[0]);
    var name := "";
    if hasFunc {
      pos, name := ReadName(text);
      if pos == |text| {
        return Parsed(Message(true, name, Null), true);
      }
      pos := pos + 1;
      if pos == |text| {
        return Failed(PastEnd);
      }
    }
    assert !hasFunc ==> text[pos..] == text;
    var data := BuildData(text[pos..]);
    r := WithData(hasFunc, name, data);
  }

  method DeparseArmaMessage(m: Message, buffer: string) returns (ok: bool, out: string)
    ensures ok <==> !m.data.Null?
    ensures out == buffer + PrintMessage(m)
  {
    out := buffer;
    if m.hasFunc {
      out := out + m.name;
      if !m.data.Null? {
        out := out + [AD_SEPERATOR];
      }
    }
    ok, out := DeparseArmaData(m.data, out);
  }

  /** The messages that survive the wire. */
  predicate MessageInDomain(m: Message) {
    if m.hasFunc then
      && AD_SEPERATOR !in m.name && (m.name != "" ==> !IsTag(m.name[0]))
      && (if m.data.Null? then m.name != "" else InDomain(m.data))
    else
      m.name == "" && InDomain(m.data)
  }

  lemma {:induction false} NameEndsAtSeparator(name: string, rest: string)
    requires AD_SEPERATOR !in name
    ensures NameOf(name) == name && NameOf(name + [AD_SEPERATOR] + rest) == name
  {
    var text := name + [AD_SEPERATOR] + rest;
    if name == "" {
    } else {
      NameEndsAtSeparator(name[1..], rest);
      assert text[1..] == name[1..] + [AD_SEPERATOR] + rest;
    }
  }

  lemma {:induction false} FirstIsTag(v: Value)
    requires !v.Null?
    ensures Print(v) != "" && IsTag(Print(v)[0])
  {
    if v.Array? {
      var body := [AD_ARRAY, AD_AS_LEFT] + Fields(v.items);
      assert v.items != [] ==> |body| - 1 >= 1;
    }
  }

  lemma {:induction false} DataParses(hasFunc: bool, name: string, v: Value)
    requires !v.Null?
    ensures WithData(hasFunc, name, Build(Print(v))) == Parsed(Message(hasFunc, name, v), true) <==> InDomain(v)
  {
    FirstIsTag(v);
    RoundTrip(v);
    assert Parse(Print(v)) == Build(Print(v));
  }

  lemma {:induction false} PlainDataRoundTrip(m: Message)
    requires !m.hasFunc
    ensures ParseMessage(PrintMessage(m)) == Parsed(m, true) <==> MessageInDomain(m)
  {
    assert PrintMessage(m) == Print(m.data);
    if !m.data.Null? {
      FirstIsTag(m.data);
      DataParses(false, "", m.data);
    }
  }

  lemma {:induction false} NamedDataRoundTrip(m: Message)
    requires m.hasFunc && AD_SEPERATOR !in m.name && !m.data.Null?
    ensures ParseMessage(PrintMessage(m)) == Parsed(m, true) <==> MessageInDomain(m)
  {
    var data := Print(m.data);
    FirstIsTag(m.data);
    DataParses(true, m.name, m.data);
    NameEndsAtSeparator(m.name, data);
    hide Build, Print, InDomain, NameOf;
    var text := m.name + [AD_SEPERATOR] + data;
    assert PrintMessage(m) == text;
    assert text[|m.name| + 1..] == data;
    assert text[0] == if m.name == "" then AD_SEPERATOR else m.name[0];
  }

  /** A message parses back from its printed text exactly inside its domain. */
  lemma {:induction false} MessageRoundTrip(m: Message)
    ensures ParseMessage(PrintMessage(m)) == Parsed(m, true) <==> MessageInDomain(m)
  {
    if !m.hasFunc {
      PlainDataRoundTrip(m);
    } else if AD_SEPERATOR in m.name {
      hide Print, Build;
    } else if m.data.Null? {
      NameEndsAtSeparator(m.name, "");
      assert PrintMessage(m) == m.name;
    } else {
      NamedDataRoundTrip(m);
    }
  }

  /** A text that begins with one of the six type tags is data without a name; any other begins with a name. */
  lemma {:induction false} NameOrData(text: string)
    requires |text| >= 2
    ensures
      var r := ParseMessage(text);
      && (text[0] in "$#+-*@" ==> r == WithData(false, "", Build(text)))
      && (text[0] !in "$#+-*@" && r.Parsed? ==> r.msg.hasFunc && r.msg.name == NameOf(text))
  {
    hide Build, NameOf;
    assert IsTag(text[0]) <==> text[0] in "$#+-*@";
  }

  /** Data that is refused leaves the message without data, and the answer is false; a name alone is enough. */
  lemma {:induction false} RefusedAndMissing(name: string, rest: string)
    requires name != "" && AD_SEPERATOR !in name && !IsTag(name[0])
    requires rest != "" && rest[0] != '['
    ensures ParseMessage("@" + rest) == Parsed(Message(false, "", Null), false)
    ensures ParseMessage(name + "," + "@" + rest) == Parsed(Message(true, name, Null), false)
    ensures ParseMessage(name) == Parsed(Message(true, name, Null), true)
    ensures ParseMessage("") == Parsed(Message(false, "", Null), false)
    ensures ParseMessage(name + ",") == Failed(PastEnd)
  {
    var data := "@" + rest;
    assert data[1] == rest[0];
    assert Build(data) == Refused;
    NameEndsAtSeparator(name, data);
    NameEndsAtSeparator(name, "");
    hide Build, NameOf;
    var text := name + "," + "@" + rest;
    assert text == name + [AD_SEPERATOR] + data && text[|name| + 1..] == data;
    assert name + "," == name + [AD_SEPERATOR] + "";
  }
}
