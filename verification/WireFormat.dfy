/** The tagged text that the game and the extension exchange: values and their printed form. */
module WireFormat {
  import opened Words

  const AD_STRING := '$'
  const AD_FLOAT := '#'
  const AD_UNSIGNED := '+'
  const AD_SIGNED := '-'
  const AD_ADDRESS := '*'
  const AD_ARRAY := '@'
  const AD_SEPERATOR := ','
  const AD_AS_LEFT := '['
  const AD_AS_RIGHT := ']'
  const AD_UNIT := '\U{1F}'

  /** The tree an ArmaData object holds; Null is an object without data. */
  datatype Value =
    | Null
    | Str(text: string)
    | Signed(n: I64)
    | Unsigned(u: U64)
    | Address(p: U64)
    | Array(items: seq<Value>)

  function DigitChar(d: nat): char
    requires d < 16
  {
    if d < 10 then '0' + d as char else 'a' + (d - 10) as char
  }

  function Digits(n: nat, base: nat): (s: string)
    requires 2 <= base <= 16
    ensures s != ""
    decreases n
  {
    if n < base then [DigitChar(n)] else Digits(n / base, base) + [DigitChar(n % base)]
  }

  /** std::to_string of a signed number. */
  function SignedDigits(n: int): string {
    if n < 0 then "-" + Digits(-n, 10) else Digits(n, 10)
  }

  /** What DeparseArmaData appends for a value. */
  function Print(v: Value): string
    decreases v, 0
  {
    match v
    case Null => ""
    case Str(s) => [AD_STRING, AD_UNIT] + s + [AD_UNIT]
    case Signed(n) => [AD_SIGNED] + SignedDigits(n)
    case Unsigned(u) => [AD_UNSIGNED] + Digits(u, 10)
    case Address(p) => [AD_ADDRESS] + Digits(p, 16)
    case Array(items) =>
      var body := [AD_ARRAY, AD_AS_LEFT] + Fields(items);
      (if items == [] then body else body[..|body| - 1]) + [AD_AS_RIGHT]
  }

  /** The items that have data, each followed by a separator. */
  function Fields(items: seq<Value>): string
    decreases items
  {
    if items == [] then ""
    else (if items[0].Null? then "" else Print(items[0]) + [AD_SEPERATOR]) + Fields(items[1..])
  }

  /** DeparseArmaData: prints behind what the buffer already holds, and says whether there was data. */
  method DeparseArmaData(v: Value, buffer: string) returns (ok: bool, out: string)
    ensures ok <==> !v.Null?
    ensures out == buffer + Print(v)
    decreases v, 0
  {
    match v {
      case Null => return false, buffer;
      case Str(s) => out := buffer + [AD_STRING, AD_UNIT] + s + [AD_UNIT];
      case Signed(n) => out := buffer + [AD_SIGNED] + SignedDigits(n);
      case Unsigned(u) => out := buffer + [AD_UNSIGNED] + Digits(u, 10);
      case Address(p) => out := buffer + [AD_ADDRESS] + Digits(p, 16);
      case Array(items) => out := DeparseItems(items, buffer);
    }
    return true, out;
  }

  /** The array branch: every item with its separator, then the last character is taken back. */
  method DeparseItems(items: seq<Value>, buffer: string) returns (out: string)
    ensures out == buffer + Print(Array(items))
    decreases items, 1
  {
    out := buffer + [AD_ARRAY];
    out := out + [AD_AS_LEFT];
    out := DeparseFields(items, out);
    ghost var body := [AD_ARRAY, AD_AS_LEFT] + Fields(items);
    assert out == buffer + body;
    if |items| > 0 {
      out := out[..|out| - 1];
      assert out == buffer + body[..|body| - 1];
    }
    out := out + [AD_AS_RIGHT];
  }

  /** The loop of the array branch; items without data leave no trace. */
  method DeparseFields(items: seq<Value>, buffer: string) returns (out: string)
    ensures out == buffer + Fields(items)
    decreases items, 0
  {
    hide Print;
    out := buffer;
    var i := 0;
    while i < |items|
      invariant 0 <= i <= |items|
      invariant out + Fields(items[i..]) == buffer + Fields(items)
    {
      assert items[i..][1..] == items[i + 1..];
      if !items[i].Null? {
        ghost var rest := Fields(items[i + 1..]);
        var _, printed := DeparseArmaData(items[i], out);
        assert Fields(items[i..]) == Print(items[i]) + [AD_SEPERATOR] + rest;
        assert printed + [AD_SEPERATOR] + rest == out + Fields(items[i..]);
        out := printed + [AD_SEPERATOR];
      }
      i := i + 1;
    }
  }
}
