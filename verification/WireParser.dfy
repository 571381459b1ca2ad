/** ArmaData::BuildData: the parser of the tagged text, as a function of the text and as the loops of the source. */
module WireParser {
  import opened WireFormat
  import opened WireNumbers
  import opened Words

  /**
   * How a parse ends. Refused: false is returned and the object has no data. Terminated: std::terminate
   * after a logged error. Thrown: an exception of std::stoll or std::stoull. PastEnd: the iterator is read
   * at the end of the text. Unmodelled: floating-point data.
   */
  datatype Outcome = Done(value: Value) | Refused | Terminated | Thrown | PastEnd | Unmodelled

  function ParseSigned(s: string): Outcome {
    match ReadNumber(s, 10)
    case (_, None) => Thrown
    case (negative, Some(m)) =>
      var n: int := if negative then -(m as int) else m;
      if I64_MIN <= n <= I64_MAX then Done(Signed(n)) else Thrown
  }

  /** A minus sign is accepted and wraps around. */
  function ParseUnsigned(s: string): Outcome {
    match ReadNumber(s, 10)
    case (_, None) => Thrown
    case (negative, Some(m)) =>
      if m >= U64_SPAN then Thrown
      else Done(Unsigned(if negative then (U64_SPAN - m) % U64_SPAN else m))
  }

  /** Stream input never throws here: it leaves 0 for no digits and the largest value on overflow. */
  function ParseAddress(s: string): Outcome {
    match ReadNumber(s, 16)
    case (_, None) => Done(Address(0))
    case (negative, Some(m)) =>
      if m >= U64_SPAN then Done(Address(U64_SPAN - 1))
      else Done(Address(if negative then (U64_SPAN - m) % U64_SPAN else m))
  }

  /** ParseArmaData on a fresh object. */
  function Parse(text: string): Outcome
    decreases |text|, |text|, 3
  {
    if text == "" then Refused else Build(text)
  }

  /** BuildData, entered with the iterator on the type tag. */
  function Build(text: string): Outcome
    requires text != ""
    decreases |text|, |text|, 2
  {
    if |text| == 1 then Terminated
    else if text[0] == AD_STRING then Done(Str(text[1..]))
    else if text[0] == AD_FLOAT then Unmodelled
    else if text[0] == AD_SIGNED then ParseSigned(text[1..])
    else if text[0] == AD_UNSIGNED then ParseUnsigned(text[1..])
    else if text[0] == AD_ARRAY then if text[1] == AD_AS_LEFT then Elements(text, 2, []) else Refused
    else if text[0] == AD_ADDRESS then ParseAddress(text[1..])
    else Terminated
  }

  /** An element must have data: an element object left without a type ends the process. */
  function Element(text: string): Outcome
    decreases |text|, |text|, 4
  {
    var r := Parse(text);
    if r.Refused? then Terminated else r
  }

  /** The outer loop of the array branch, with the elements read so far. */
  function Elements(text: string, pos: nat, items: seq<Value>): Outcome
    requires 2 <= pos <= |text|
    decreases |text|, |text| - pos, if pos < |text| && text[pos] != AD_ARRAY then 2 else 0
  {
    if pos == |text| then Done(Array(items))
    else if text[pos] != AD_ARRAY then Scalars(text, pos, false, "", items)
    else if pos + 1 == |text| then PastEnd
    else if text[pos + 1] == AD_AS_LEFT && pos + 2 != |text| then
      Nested(text, pos + 2, 1, 0, false, [AD_ARRAY, AD_AS_LEFT], items)
    else Terminated
  }

  /** The scan for the bracket that closes a nested array; brackets between unit marks do not count. */
  function Nested(text: string, pos: nat, left: nat, right: nat, ignore: bool, temp: string, items: seq<Value>): Outcome
    requires |temp| + 2 <= pos <= |text|
    decreases |text|, |text| - pos, 1
  {
    if pos == |text| then PastEnd
    else
      var c := text[pos];
      var ignore' := if c == AD_UNIT then !ignore else ignore;
      var left' := if !ignore' && c == AD_AS_LEFT then left + 1 else left;
      var right' := if !ignore' && c == AD_AS_RIGHT then right + 1 else right;
      if !ignore' && left' == right' then CloseNested(text, pos, temp + [c], items)
      else Nested(text, pos + 1, left', right', ignore', temp + [c], items)
  }

  /** The closing bracket stands at `pos`: the collected text is parsed and the separator checked. */
  function CloseNested(text: string, pos: nat, temp: string, items: seq<Value>): Outcome
    requires |temp| + 1 <= pos < |text|
    decreases |text|, |text| - pos, 0
  {
    var element := Element(temp);
    if !element.Done? then element
    else if pos + 1 == |text| then Terminated
    else if text[pos + 1] == AD_AS_RIGHT then
      if pos + 2 != |text| then Terminated else Elements(text, pos + 2, items + [element.value])
    else if pos + 2 == |text| || text[pos + 2] == AD_AS_RIGHT then Terminated
    else Elements(text, pos + 2, items + [element.value])
  }

  /** The inner loop for elements that are no arrays. Unit marks are dropped from the collected text. */
  function Scalars(text: string, pos: nat, ignore: bool, temp: string, items: seq<Value>): Outcome
    requires 2 <= |temp| + 2 <= pos <= |text|
    decreases |text|, |text| - pos, 1
  {
    if pos == |text| then PastEnd
    else if text[pos] == AD_ARRAY then Elements(text, pos, items)
    else
      var c := text[pos];
      var ignore' := if c == AD_UNIT then !ignore else ignore;
      var temp' := if c == AD_UNIT then temp else temp + [c];
      if ignore' then
        if pos + 1 == |text| then Terminated else Scalars(text, pos + 1, true, temp', items)
      else if pos + 1 == |text| then PastEnd
      else if text[pos + 1] == AD_SEPERATOR || text[pos + 1] == AD_AS_RIGHT then
        CloseScalar(text, pos + 1, temp', items)
      else Scalars(text, pos + 1, false, temp', items)
  }

  /** A separator or the final bracket stands at `pos`. */
  function CloseScalar(text: string, pos: nat, temp: string, items: seq<Value>): Outcome
    requires |temp| + 2 <= pos < |text|
    decreases |text|, |text| - pos, 0
  {
    var element := Element(temp);
    if !element.Done? then element
    else if text[pos] == AD_AS_RIGHT then
      if pos + 1 == |text| then Done(Array(items + [element.value])) else Terminated
    else if pos + 1 == |text| then Terminated
    else Scalars(text, pos + 1, false, "", items + [element.value])
  }

  method ParseArmaData(text: string) returns (r: Outcome)
    ensures r == Parse(text)
    decreases |text|, 2
  {
    if text == "" {
      return Refused;
    }
    r := BuildData(text);
  }

  /** BuildData on a fresh object, for every text. */
  method BuildData(text: string) returns (r: Outcome)
    requires text != ""
    ensures r == Build(text)
    decreases |text|, 1
  {
    if |text| == 1 {
      return Terminated;
    }
    if text[0] == AD_ARRAY {
      if text[1] == AD_AS_LEFT {
        r := BuildArray(text);
      } else {
        r := Refused;
      }
    } else if text[0] == AD_STRING {
      r := Done(Str(text[1..]));
    } else if text[0] == AD_FLOAT {
      r := Unmodelled;
    } else if text[0] == AD_SIGNED {
      r := ParseSigned(text[1..]);
    } else if text[0] == AD_UNSIGNED {
      r := ParseUnsigned(text[1..]);
    } else if text[0] == AD_ADDRESS {
      r := ParseAddress(text[1..]);
    } else {
      r := Terminated;
    }
  }

  /** The array branch: two loops inside one, a quote flag and two bracket counters. */
  method BuildArray(text: string) returns (r: Outcome)
    requires 2 <= |text|
    ensures r == Elements(text, 2, [])
    decreases |text|, 0
  {
    var items: seq<Value> := [];
    var pos := 2;
    while pos != |text|
      invariant 2 <= pos <= |text|
      invariant Elements(text, pos, items) == Elements(text, 2, [])
      decreases |text| - pos
    {
      if text[pos] == AD_ARRAY {
        if pos + 1 == |text| {
          return PastEnd;
        }
        if text[pos + 1] != AD_AS_LEFT || pos + 2 == |text| {
          return Terminated;
        }
        r, pos, items := BuildNested(text, pos + 2, items);
      } else {
        r, pos, items := BuildScalars(text, pos, items);
      }
      if r != Refused {
        return;
      }
    }
    return Done(Array(items));
  }

  /**
   * The bracket loop. Refused stands for going on with the outer loop at `next`; any other outcome
   * is the outcome of the whole array.
   */
  method BuildNested(text: string, start: nat, items: seq<Value>) returns (r: Outcome, next: nat, items': seq<Value>)
    requires 4 <= start <= |text|
    ensures start <= next <= |text|
    ensures Nested(text, start, 1, 0, false, [AD_ARRAY, AD_AS_LEFT], items)
            == if r.Refused? then Elements(text, next, items') else r
    decreases |text|, 0, |text| - start
  {
    ghost var target := Nested(text, start, 1, 0, false, [AD_ARRAY, AD_AS_LEFT], items);
    var temp := [AD_ARRAY, AD_AS_LEFT];
    var left, right := 1, 0;
    var ignore := false;
    next, items' := start, items;
    while left > 0
      invariant start <= next <= |text| && 0 <= left && 0 <= right
      invariant left > 0 ==> |temp| + 2 <= next && Nested(text, next, left, right, ignore, temp, items') == target
      invariant left == 0 ==> Elements(text, next, items') == target
      decreases |text| - next
    {
      if next == |text| {
        return PastEnd, next, items';
      }
      if text[next] == AD_UNIT {
        ignore := !ignore;
      }
      temp := temp + [text[next]];
      if !ignore {
        if text[next] == AD_AS_LEFT {
          left := left + 1;
        }
        if text[next] == AD_AS_RIGHT {
          right := right + 1;
        }
        if left == right {
          assert target == CloseNested(text, next, temp, items');
          var element := ParseArmaData(temp);
          assert Element(temp) == if element.Refused? then Terminated else element;
          if !element.Done? {
            return if element.Refused? then Terminated else element, next, items';
          }
          items' := items' + [element.value];
          if next + 1 == |text| {
            return Terminated, next, items';
          }
          next := next + 1;
          left, right := 0, 0;
          if text[next] != AD_AS_RIGHT {
            if next + 1 == |text| || text[next + 1] == AD_AS_RIGHT {
              return Terminated, next, items';
            }
          } else if next + 1 != |text| {
            return Terminated, next, items';
          }
        }
      }
      next := next + 1;
    }
    r := Refused;
  }

  /** The inner loop for elements that are no arrays; it ends at an array tag or at the final bracket. */
  method BuildScalars(text: string, start: nat, items: seq<Value>) returns (r: Outcome, next: nat, items': seq<Value>)
    requires 2 <= start < |text| && text[start] != AD_ARRAY
    ensures start < next <= |text|
    ensures Elements(text, start, items) == if r.Refused? then Elements(text, next, items') else r
    decreases |text|, 0, |text| - start
  {
    ghost var target := Elements(text, start, items);
    var temp := "";
    var ignore := false;
    next, items' := start, items;
    while text[next] != AD_ARRAY
      invariant start <= next < |text| && |temp| + 2 <= next
      invariant next == start ==> text[next] != AD_ARRAY
      invariant Scalars(text, next, ignore, temp, items') == target
      decreases |text| - next
    {
      if text[next] == AD_UNIT {
        ignore := !ignore;
      } else {
        temp := temp + [text[next]];
      }
      next := next + 1;
      if !ignore {
        if next == |text| {
          return PastEnd, next, items';
        }
        if text[next] == AD_SEPERATOR || text[next] == AD_AS_RIGHT {
          assert target == CloseScalar(text, next, temp, items');
          var element := ParseArmaData(temp);
          assert Element(temp) == if element.Refused? then Terminated else element;
          if !element.Done? {
            return if element.Refused? then Terminated else element, next, items';
          }
          items' := items' + [element.value];
          temp := "";
          next := next + 1;
          if text[next - 1] == AD_AS_RIGHT {
            return if next == |text| then Done(Array(items')) else Terminated, next, items';
          }
          if next == |text| {
            return Terminated, next, items';
          }
        }
      } else if next == |text| {
        return Terminated, next, items';
      }
    }
    r := Refused;
  }
}
