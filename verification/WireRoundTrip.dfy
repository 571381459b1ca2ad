/** What becomes of a printed value that is parsed: itself exactly inside a domain, and else a failure or something else. */
module WireRoundTrip {
  import opened WireFormat
  import opened WireNumbers
  import opened WireParser

  /** Strings that survive inside an array. */
  predicate Clean(s: string) {
    s != "" && AD_ARRAY !in s && AD_UNIT !in s
  }

  /** Values that can be elements: every string below is clean, and every object has data. */
  predicate Nestable(v: Value) {
    match v
    case Null => false
    case Str(s) => Clean(s)
    case Array(items) => forall i :: 0 <= i < |items| ==> Nestable(items[i])
    case _ => true
  }

  predicate AllNestable(items: seq<Value>) {
    forall i :: 0 <= i < |items| ==> Nestable(items[i])
  }

  /** Values whose text keeps its quotes in pairs: no string below holds a unit mark, and every object has data. */
  predicate Legible(v: Value) {
    match v
    case Null => false
    case Str(s) => AD_UNIT !in s
    case Array(items) => forall i :: 0 <= i < |items| ==> Legible(items[i])
    case _ => true
  }

  predicate AllLegible(items: seq<Value>) {
    forall i :: 0 <= i < |items| ==> Legible(items[i])
  }

  /** No array tag of the string looks like the beginning of an array. */
  predicate NoOpening(s: string) {
    forall i :: 0 <= i < |s| - 1 && s[i] == AD_ARRAY ==> s[i + 1] != AD_AS_LEFT
  }

  /** Legible values in whose strings nothing looks like the beginning of an array. */
  predicate Tame(v: Value) {
    match v
    case Null => false
    case Str(s) => AD_UNIT !in s && NoOpening(s)
    case Array(items) => forall i :: 0 <= i < |items| ==> Tame(items[i])
    case _ => true
  }

  predicate AllTame(items: seq<Value>) {
    forall i :: 0 <= i < |items| ==> Tame(items[i])
  }

  lemma {:induction false} TameIsLegible(v: Value)
    requires Tame(v)
    ensures Legible(v)
    decreases v
  {
    if v.Array? {
      forall i | 0 <= i < |v.items| ensures Legible(v.items[i]) {
        TameIsLegible(v.items[i]);
      }
    } else {
    }
  }

  lemma {:induction false} NestableIsTame(v: Value)
    requires Nestable(v)
    ensures Tame(v)
    decreases v
  {
    if v.Array? {
      forall i | 0 <= i < |v.items| ensures Tame(v.items[i]) {
        NestableIsTame(v.items[i]);
      }
    } else {
    }
  }

  /** What parsing makes of a printed element; the elements of an array are read in turn up to the first failure. */
  function Fate(v: Value): Outcome
    decreases v, 0
  {
    match v
    case Null => Terminated
    case Str(s) => if s == "" || AD_ARRAY in s then Terminated else Done(v)
    case Array(items) => if items == [] then PastEnd else FateOf(items, v)
    case _ => Done(v)
  }

  function FateOf(items: seq<Value>, whole: Value): Outcome
    decreases items, 1
  {
    if items == [] then Done(whole)
    else if Fate(items[0]).Done? then FateOf(items[1..], whole)
    else Fate(items[0])
  }

  /** No array below is empty. */
  predicate Full(v: Value) {
    v.Array? ==> v.items != [] && forall i :: 0 <= i < |v.items| ==> Full(v.items[i])
  }

  predicate AllFull(items: seq<Value>) {
    forall i :: 0 <= i < |items| ==> Full(items[i])
  }

  /** The values that survive printing and parsing. */
  predicate InDomain(v: Value) {
    Nestable(v) && Full(v) && !v.Str?
  }

  lemma {:induction false} ElementIsBuilt(text: string)
    ensures Element(text) == if text == "" || Build(text).Refused? then Terminated else Build(text)
  {
    assert Parse(text) == if text == "" then Refused else Build(text);
  }

  // ---------- What the parser can produce, on any text at all ----------

  /** Whatever text is parsed, an array that comes out has only elements that can be printed safely. */
  lemma {:induction false} ParsedIsNestable(text: string, v: Value)
    requires text != "" && Build(text) == Done(v)
    requires text[0] == AD_ARRAY || (AD_ARRAY !in text && AD_UNIT !in text)
    ensures Nestable(v)
    decreases |text|, |text|, 2
  {
    if text[0] == AD_ARRAY {
      ElementsAreNestable(text, 2, [], v);
    } else if text[0] == AD_STRING {
      assert text[1] in text[1..];
    }
  }

  lemma {:induction false} ElementsAreNestable(text: string, pos: nat, items: seq<Value>, v: Value)
    requires 2 <= pos <= |text| && AllNestable(items)
    requires Elements(text, pos, items) == Done(v)
    ensures Nestable(v)
    decreases |text|, |text| - pos, if pos < |text| && text[pos] != AD_ARRAY then 2 else 0
  {
    if pos == |text| {
    } else {
      if text[pos] != AD_ARRAY {
        ScalarsAreNestable(text, pos, false, "", items, v);
      } else {
        NestedIsNestable(text, pos + 2, 1, 0, false, [AD_ARRAY, AD_AS_LEFT], items, v);
      }
    }
  }

  lemma {:induction false} NestedIsNestable(text: string, pos: nat, left: nat, right: nat, ignore: bool, temp: string,
                                            items: seq<Value>, v: Value)
    requires |temp| + 2 <= pos <= |text| && AllNestable(items)
    requires temp != "" && temp[0] == AD_ARRAY
    requires Nested(text, pos, left, right, ignore, temp, items) == Done(v)
    ensures Nestable(v)
    decreases |text|, |text| - pos, 1
  {
    var c := text[pos];
    var ignore' := if c == AD_UNIT then !ignore else ignore;
    var left' := if !ignore' && c == AD_AS_LEFT then left + 1 else left;
    var right' := if !ignore' && c == AD_AS_RIGHT then right + 1 else right;
    if !ignore' && left' == right' {
      var temp' := temp + [c];
      assert CloseNested(text, pos, temp', items) == Done(v);
      var element := Element(temp').value;
      ElementIsBuilt(temp');
      ParsedIsNestable(temp', element);
      ElementsAreNestable(text, pos + 2, items + [element], v);
    } else {
      NestedIsNestable(text, pos + 1, left', right', ignore', temp + [c], items, v);
    }
  }

  lemma {:induction false} ScalarsAreNestable(text: string, pos: nat, ignore: bool, temp: string,
                                              items: seq<Value>, v: Value)
    requires 2 <= |temp| + 2 <= pos <= |text| && AllNestable(items)
    requires AD_ARRAY !in temp && AD_UNIT !in temp
    requires Scalars(text, pos, ignore, temp, items) == Done(v)
    ensures Nestable(v)
    decreases |text|, |text| - pos, 1
  {
    var c := text[pos];
    var ignore' := if c == AD_UNIT then !ignore else ignore;
    var temp' := if c == AD_UNIT then temp else temp + [c];
    if c == AD_ARRAY {
      ElementsAreNestable(text, pos, items, v);
    } else if ignore' || (text[pos + 1] != AD_SEPERATOR && text[pos + 1] != AD_AS_RIGHT) {
      ScalarsAreNestable(text, pos + 1, ignore', temp', items, v);
    } else {
      assert CloseScalar(text, pos + 1, temp', items) == Done(v);
      var element := Element(temp').value;
      ElementIsBuilt(temp');
      ParsedIsNestable(temp', element);
      if text[pos + 1] != AD_AS_RIGHT {
        ScalarsAreNestable(text, pos + 2, false, "", items + [element], v);
      }
    }
  }

  // ---------- The printed form ----------

  lemma {:induction false} Assoc(a: string, b: string, c: string)
    ensures (a + b) + c == a + (b + c)
  {
  }

  /** From `pos` to its end, the text reads `rest`. */
  predicate At(text: string, pos: nat, rest: string) {
    pos <= |text| && text[pos..] == rest
  }

  /** Moving on by the length of what stands next. */
  lemma {:induction false} MoveOn(text: string, pos: nat, next: string, rest: string)
    requires At(text, pos, next + rest)
    ensures pos + |next| <= |text| && At(text, pos + |next|, rest)
    ensures next != "" ==> text[pos] == next[0]
    ensures |text| - pos == |next| + |rest|
  {
    assert text[pos..][|next|..] == rest;
  }

  lemma {:induction false} MoveOne(text: string, pos: nat, c: char, rest: string)
    requires At(text, pos, [c] + rest)
    ensures pos < |text| && text[pos] == c && At(text, pos + 1, rest)
  {
    MoveOn(text, pos, [c], rest);
  }

  lemma {:induction false} NextIs(text: string, pos: nat, rest: string)
    requires At(text, pos, rest)
    ensures |text| - pos == |rest|
    ensures rest != "" ==> text[pos] == rest[0]
  {
  }

  function Join(items: seq<Value>): string {
    if items == [] then ""
    else if |items| == 1 then Print(items[0])
    else Print(items[0]) + [AD_SEPERATOR] + Join(items[1..])
  }

  lemma {:induction false} FieldsAreJoined(items: seq<Value>)
    requires AllLegible(items) && items != []
    ensures Fields(items) == Join(items) + [AD_SEPERATOR]
  {
    if |items| == 1 {
    } else {
      FieldsAreJoined(items[1..]);
    }
  }

  lemma {:induction false} ArrayText(items: seq<Value>)
    requires AllLegible(items)
    ensures Print(Array(items)) == [AD_ARRAY, AD_AS_LEFT] + Join(items) + [AD_AS_RIGHT]
  {
    if items != [] {
      FieldsAreJoined(items);
      var body := [AD_ARRAY, AD_AS_LEFT] + Fields(items);
      assert body == [AD_ARRAY, AD_AS_LEFT] + Join(items) + [AD_SEPERATOR];
      assert body[..|body| - 1] == [AD_ARRAY, AD_AS_LEFT] + Join(items);
    }
  }

  /** Characters that mean nothing to either scan. */
  predicate Plain(c: char) {
    c !in [AD_UNIT, AD_AS_LEFT, AD_AS_RIGHT, AD_ARRAY, AD_SEPERATOR]
  }

  predicate AllPlain(s: string) {
    forall i :: 0 <= i < |s| ==> Plain(s[i])
  }

  lemma {:induction false} DigitsArePlain(n: nat, base: nat)
    requires 2 <= base <= 16
    ensures AllPlain(Digits(n, base))
  {
    DigitsStandFor(n, base);
    forall i | 0 <= i < |Digits(n, base)| ensures Plain(Digits(n, base)[i]) {
      assert DigitValue(Digits(n, base)[i]) < base;
    }
  }

  lemma {:induction false} TaggedDigitsArePlain(tag: char, digits: string)
    requires Plain(tag) && AllPlain(digits)
    ensures AllPlain([tag] + digits)
  {
  }

  /** A printed number is plain, and reads back. */
  lemma {:induction false} NumberIsPlain(v: Value)
    requires v.Signed? || v.Unsigned? || v.Address?
    ensures Print(v) != "" && AllPlain(Print(v))
    ensures Build(Print(v)) == Done(v)
  {
    hide Digits, DigitRun, NumberOf, ReadNumber, AllPlain;
    match v {
      case Signed(i) =>
        var n: nat := if i < 0 then -(i as int) else i;
        DigitsArePlain(n, 10);
        DigitsReadBack(n, 10);
        TaggedDigitsArePlain(AD_SIGNED, Digits(n, 10));
        TaggedDigitsArePlain(AD_SIGNED, [AD_SIGNED] + Digits(n, 10));
        assert Print(v)[1..] == SignedDigits(i);
      case Unsigned(u) =>
        DigitsArePlain(u, 10);
        DigitsReadBack(u, 10);
        TaggedDigitsArePlain(AD_UNSIGNED, Digits(u, 10));
        assert Print(v)[1..] == Digits(u, 10);
      case Address(p) =>
        DigitsArePlain(p, 16);
        DigitsReadBack(p, 16);
        TaggedDigitsArePlain(AD_ADDRESS, Digits(p, 16));
        assert Print(v)[1..] == Digits(p, 16);
    }
  }

  // ---------- The bracket scan stops exactly at the matching bracket ----------

  /** A stretch without unit marks, and without brackets unless quoted, is copied. */
  lemma {:induction false} ScanText(s: string, text: string, pos: nat, left: nat, right: nat, ignore: bool,
                                    temp: string, items: seq<Value>, post: string)
    requires |temp| + 2 <= pos && At(text, pos, s + post)
    requires AD_UNIT !in s && (ignore || (AD_AS_LEFT !in s && AD_AS_RIGHT !in s))
    requires right < left
    ensures |temp + s| + 2 <= pos + |s| <= |text| && At(text, pos + |s|, post)
    ensures Nested(text, pos, left, right, ignore, temp, items)
            == Nested(text, pos + |s|, left, right, ignore, temp + s, items)
  {
    if s == "" {
      assert temp + s == temp && s + post == post;
    } else {
      assert s + post == [s[0]] + (s[1..] + post);
      MoveOne(text, pos, s[0], s[1..] + post);
      ScanText(s[1..], text, pos + 1, left, right, ignore, temp + [s[0]], items, post);
      assert temp + [s[0]] + s[1..] == temp + s;
    }
  }

  lemma {:induction false} ScanBracket(text: string, pos: nat, left: nat, right: nat, temp: string, items: seq<Value>)
    requires |temp| + 2 <= pos < |text|
    ensures text[pos] == AD_AS_LEFT && right < left + 1 ==>
              Nested(text, pos, left, right, false, temp, items)
              == Nested(text, pos + 1, left + 1, right, false, temp + [AD_AS_LEFT], items)
    ensures text[pos] == AD_AS_RIGHT && right + 1 < left ==>
              Nested(text, pos, left, right, false, temp, items)
              == Nested(text, pos + 1, left, right + 1, false, temp + [AD_AS_RIGHT], items)
    ensures text[pos] == AD_AS_RIGHT && right + 1 == left ==>
              Nested(text, pos, left, right, false, temp, items)
              == CloseNested(text, pos, temp + [AD_AS_RIGHT], items)
  {
  }

  lemma {:induction false} ScanUnit(text: string, pos: nat, left: nat, right: nat, ignore: bool, temp: string, items: seq<Value>)
    requires |temp| + 2 <= pos < |text| && text[pos] == AD_UNIT && right < left
    ensures Nested(text, pos, left, right, ignore, temp, items)
            == Nested(text, pos + 1, left, right, !ignore, temp + [AD_UNIT], items)
  {
  }

  /** Scanning a printed value leaves the balance of brackets and the quote flag as they were. */
  lemma {:induction false} ScanValue(v: Value, text: string, pos: nat, left: nat, right: nat, temp: string,
                                     items: seq<Value>, post: string) returns (k: nat)
    requires Legible(v) && right < left
    requires |temp| + 2 <= pos && At(text, pos, Print(v) + post)
    ensures |temp + Print(v)| + 2 <= pos + |Print(v)| <= |text| && At(text, pos + |Print(v)|, post)
    ensures Nested(text, pos, left, right, false, temp, items)
            == Nested(text, pos + |Print(v)|, left + k, right + k, false, temp + Print(v), items)
    decreases v, 1
  {
    hide Nested, Join, Print, Fields, Build, At;
    k := 0;
    match v {
      case Null =>
      case Str(s) =>
        ScanString(s, text, pos, left, right, temp, items, post);
      case Array(es) =>
        ArrayText(es);
        assert AllLegible(es);
        k := ScanArray(es, text, pos, left, right, temp, items, post);
      case _ =>
        NumberIsPlain(v);
        PlainIsUnmarked(Print(v));
        ScanText(Print(v), text, pos, left, right, false, temp, items, post);
    }
  }

  lemma {:induction false} PlainIsUnmarked(s: string)
    requires AllPlain(s)
    ensures AD_UNIT !in s && AD_AS_LEFT !in s && AD_AS_RIGHT !in s && AD_ARRAY !in s && AD_SEPERATOR !in s
  {
  }

  lemma {:induction false} StringText(s: string, post: string)
    ensures Print(Str(s)) + post == [AD_STRING] + ([AD_UNIT] + (s + ([AD_UNIT] + post)))
  {
  }

  /** A quoted string may hold brackets and separators. */
  lemma {:induction false} ScanString(s: string, text: string, pos: nat, left: nat, right: nat, temp: string,
                   items: seq<Value>, post: string)
    requires AD_UNIT !in s && right < left
    requires |temp| + 2 <= pos && At(text, pos, Print(Str(s)) + post)
    ensures |temp + Print(Str(s))| + 2 <= pos + |Print(Str(s))| <= |text| && At(text, pos + |Print(Str(s))|, post)
    ensures Nested(text, pos, left, right, false, temp, items)
            == Nested(text, pos + |Print(Str(s))|, left, right, false, temp + Print(Str(s)), items)
  {
    hide Nested, Print, At;
    var post' := [AD_UNIT] + post;
    StringText(s, post);
    ScanText([AD_STRING], text, pos, left, right, false, temp, items, [AD_UNIT] + (s + post'));
    MoveOne(text, pos + 1, AD_UNIT, s + post');
    var t1 := temp + [AD_STRING];
    ScanUnit(text, pos + 1, left, right, false, t1, items);
    var t2 := t1 + [AD_UNIT];
    ScanText(s, text, pos + 2, left, right, true, t2, items, post');
    MoveOne(text, pos + 2 + |s|, AD_UNIT, post);
    ScanUnit(text, pos + 2 + |s|, left, right, true, t2 + s, items);
    StringText(s, "");
    assert Print(Str(s)) + "" == Print(Str(s));
    assert t2 + s + [AD_UNIT] == temp + Print(Str(s));
  }

  lemma {:induction false} ScanArray(es: seq<Value>, text: string, pos: nat, left: nat, right: nat, temp: string,
                                     items: seq<Value>, post: string) returns (k: nat)
    requires AllLegible(es) && right < left
    requires |temp| + 2 <= pos && At(text, pos, [AD_ARRAY, AD_AS_LEFT] + Join(es) + [AD_AS_RIGHT] + post)
    ensures
      var printed := [AD_ARRAY, AD_AS_LEFT] + Join(es) + [AD_AS_RIGHT];
      && |temp + printed| + 2 <= pos + |printed| <= |text| && At(text, pos + |printed|, post)
      && Nested(text, pos, left, right, false, temp, items)
         == Nested(text, pos + |printed|, left + k, right + k, false, temp + printed, items)
    decreases es, 1
  {
    hide Nested, Join, Legible, AllLegible, At;
    var joined, post' := Join(es), [AD_AS_RIGHT] + post;
    assert [AD_ARRAY, AD_AS_LEFT] + joined + [AD_AS_RIGHT] + post == [AD_ARRAY] + ([AD_AS_LEFT] + (joined + post'));
    ScanText([AD_ARRAY], text, pos, left, right, false, temp, items, [AD_AS_LEFT] + (joined + post'));
    var t1 := temp + [AD_ARRAY];
    MoveOne(text, pos + 1, AD_AS_LEFT, joined + post');
    ScanBracket(text, pos + 1, left, right, t1, items);
    var t2 := t1 + [AD_AS_LEFT];
    var k' := ScanJoin(es, text, pos + 2, left + 1, right, t2, items, post');
    var t3 := t2 + joined;
    var end := pos + 2 + |joined|;
    MoveOne(text, end, AD_AS_RIGHT, post);
    ScanBracket(text, end, left + 1 + k', right + k', t3, items);
    assert t3 + [AD_AS_RIGHT] == temp + ([AD_ARRAY, AD_AS_LEFT] + joined + [AD_AS_RIGHT]);
    k := k' + 1;
  }

  lemma {:induction false} ScanJoin(es: seq<Value>, text: string, pos: nat, left: nat, right: nat, temp: string,
                                    items: seq<Value>, post: string) returns (k: nat)
    requires AllLegible(es) && right < left
    requires |temp| + 2 <= pos && At(text, pos, Join(es) + post)
    ensures |temp + Join(es)| + 2 <= pos + |Join(es)| <= |text| && At(text, pos + |Join(es)|, post)
    ensures Nested(text, pos, left, right, false, temp, items)
            == Nested(text, pos + |Join(es)|, left + k, right + k, false, temp + Join(es), items)
    decreases es, 0
  {
    hide Nested, Print, Legible, At;
    if es == [] {
      k := 0;
      assert temp + Join(es) == temp && Join(es) + post == post;
      MoveOn(text, pos, "", post);
    } else if |es| == 1 {
      k := ScanValue(es[0], text, pos, left, right, temp, items, post);
    } else {
      var first, others := Print(es[0]), Join(es[1..]);
      assert Join(es) == first + [AD_SEPERATOR] + others;
      hide Join;
      assert Join(es) + post == first + ([AD_SEPERATOR] + (others + post));
      var k1 := ScanValue(es[0], text, pos, left, right, temp, items, [AD_SEPERATOR] + (others + post));
      var next := pos + |first|;
      var t1 := temp + first;
      ScanText([AD_SEPERATOR], text, next, left + k1, right + k1, false, t1, items, others + post);
      var t2 := t1 + [AD_SEPERATOR];
      var k2 := ScanJoin(es[1..], text, next + 1, left + k1, right + k1, t2, items, post);
      assert t2 + others == temp + (first + [AD_SEPERATOR] + others);
      k := k1 + k2;
    }
  }

  // ---------- The scalar loop collects exactly one element ----------

  predicate EndsElement(post: string) {
    post != "" && (post[0] == AD_SEPERATOR || post[0] == AD_AS_RIGHT)
  }

  /** Outside quotes an element ends at the first separator or bracket. */
  lemma {:induction false} PlainScalar(s: string, text: string, pos: nat, temp: string, items: seq<Value>, post: string)
    requires s != "" && AllPlain(s) && EndsElement(post)
    requires |temp| + 2 <= pos && At(text, pos, s + post)
    ensures |temp + s| + 2 <= pos + |s| < |text| && At(text, pos + |s|, post)
    ensures Scalars(text, pos, false, temp, items) == CloseScalar(text, pos + |s|, temp + s, items)
  {
    hide At, Element, Elements, CloseScalar, Nested, Print;
    var rest := s[1..] + post;
    assert s + post == [s[0]] + rest;
    MoveOne(text, pos, s[0], rest);
    NextIs(text, pos + 1, rest);
    if |s| == 1 {
      assert rest == post && temp + [s[0]] == temp + s;
    } else {
      assert rest[0] == s[1];
      PlainScalar(s[1..], text, pos + 1, temp + [s[0]], items, post);
      assert temp + [s[0]] + s[1..] == temp + s;
    }
  }

  /** Inside quotes everything but an array tag is collected. */
  lemma {:induction false} QuotedScalar(s: string, text: string, pos: nat, temp: string, items: seq<Value>, post: string)
    requires AD_UNIT !in s && AD_ARRAY !in s && post != ""
    requires |temp| + 2 <= pos && At(text, pos, s + post)
    ensures |temp + s| + 2 <= pos + |s| < |text| && At(text, pos + |s|, post)
    ensures Scalars(text, pos, true, temp, items) == Scalars(text, pos + |s|, true, temp + s, items)
  {
    hide At, Element, Elements, CloseScalar, Nested, Print;
    if s == "" {
      MoveOn(text, pos, s, post);
      assert temp + s == temp && s + post == post;
    } else {
      assert s + post == [s[0]] + (s[1..] + post);
      MoveOne(text, pos, s[0], s[1..] + post);
      QuotedScalar(s[1..], text, pos + 1, temp + [s[0]], items, post);
      assert temp + [s[0]] + s[1..] == temp + s;
    }
  }

  lemma {:induction false} StringScalar(s: string, text: string, pos: nat, items: seq<Value>, post: string)
    requires AD_UNIT !in s && AD_ARRAY !in s && EndsElement(post)
    requires 2 <= pos && At(text, pos, Print(Str(s)) + post)
    ensures pos + |s| + 3 < |text| && At(text, pos + |s| + 3, post)
    ensures Scalars(text, pos, false, "", items) == CloseScalar(text, pos + |s| + 3, [AD_STRING] + s, items)
  {
    hide *;
    var post', last := [AD_UNIT] + post, pos + 2 + |s|;
    StringText(s, post);
    MoveOne(text, pos, AD_STRING, [AD_UNIT] + (s + post'));
    MoveOne(text, pos + 1, AD_UNIT, s + post');
    QuotedScalar(s, text, pos + 2, [AD_STRING], items, post');
    MoveOne(text, last, AD_UNIT, post);
    SeparatorIsNext(text, last + 1, post);
    ScalarsOpenString(text, pos, items);
    ScalarsCloseString(text, last, [AD_STRING] + s, items);
  }

  lemma {:induction false} SeparatorIsNext(text: string, pos: nat, post: string)
    requires At(text, pos, post) && EndsElement(post)
    ensures pos < |text| && (text[pos] == AD_SEPERATOR || text[pos] == AD_AS_RIGHT)
  {
  }

  lemma {:induction false} ScalarsOpenString(text: string, pos: nat, items: seq<Value>)
    requires 2 <= pos && pos + 2 < |text| && text[pos] == AD_STRING && text[pos + 1] == AD_UNIT
    ensures Scalars(text, pos, false, "", items) == Scalars(text, pos + 2, true, [AD_STRING], items)
  {
    assert "" + [AD_STRING] == [AD_STRING];
    assert Scalars(text, pos, false, "", items) == Scalars(text, pos + 1, false, [AD_STRING], items);
  }

  lemma {:induction false} ScalarsCloseString(text: string, pos: nat, temp: string, items: seq<Value>)
    requires |temp| + 2 <= pos && pos + 1 < |text| && text[pos] == AD_UNIT
    requires text[pos + 1] == AD_SEPERATOR || text[pos + 1] == AD_AS_RIGHT
    ensures Scalars(text, pos, true, temp, items) == CloseScalar(text, pos + 1, temp, items)
  {
  }

  /**
   * A string with an array tag, quoted or not, is given up at the first tag: what was collected of it is
   * dropped, and the text is read on from the tag as if an element began there.
   */
  lemma {:induction false} TagReopens(a: string, b: string, text: string, pos: nat, items: seq<Value>, post: string)
    requires AD_UNIT !in a && AD_ARRAY !in a && 2 <= pos
    requires At(text, pos, Print(Str(a + [AD_ARRAY] + b)) + post)
    ensures pos + 3 + |a| < |text| && At(text, pos + 3 + |a|, b + [AD_UNIT] + post)
    ensures Scalars(text, pos, false, "", items) == Elements(text, pos + 2 + |a|, items)
    ensures text[pos + 2 + |a|] == AD_ARRAY
  {
    hide *;
    var s := a + [AD_ARRAY] + b;
    var post', rest := [AD_UNIT] + post, b + [AD_UNIT] + post;
    StringText(s, post);
    assert s + post' == a + ([AD_ARRAY] + rest);
    MoveOne(text, pos, AD_STRING, [AD_UNIT] + (s + post'));
    MoveOne(text, pos + 1, AD_UNIT, s + post');
    QuotedScalar(a, text, pos + 2, [AD_STRING], items, [AD_ARRAY] + rest);
    MoveOne(text, pos + 2 + |a|, AD_ARRAY, rest);
    NextIs(text, pos + 3 + |a|, rest);
    ScalarsOpenString(text, pos, items);
    ScalarsAtTag(text, pos + 2 + |a|, true, [AD_STRING] + a, items);
  }

  lemma {:induction false} ScalarsAtTag(text: string, pos: nat, ignore: bool, temp: string, items: seq<Value>)
    requires |temp| + 2 <= pos < |text| && text[pos] == AD_ARRAY
    ensures Scalars(text, pos, ignore, temp, items) == Elements(text, pos, items)
    ensures pos + 1 < |text| && text[pos + 1] != AD_AS_LEFT ==> Elements(text, pos, items) == Terminated
  {
  }

  /** A tag that begins no array ends the process. */
  lemma {:induction false} TagTerminates(s: string, text: string, pos: nat, items: seq<Value>, post: string)
    requires AD_UNIT !in s && AD_ARRAY in s && NoOpening(s) && 2 <= pos
    requires At(text, pos, Print(Str(s)) + post)
    ensures pos < |text| && Scalars(text, pos, false, "", items) == Terminated
  {
    hide Scalars, Elements, Print, At;
    var k := FirstTag(s);
    var a, b := s[..k], s[k + 1..];
    assert s == a + [AD_ARRAY] + b;
    TagReopens(a, b, text, pos, items, post);
    var at := pos + 2 + k;
    NextIs(text, at + 1, b + [AD_UNIT] + post);
    assert text[at + 1] != AD_AS_LEFT;
    ScalarsAtTag(text, at, false, "", items);
  }

  lemma {:induction false} FirstTag(s: string) returns (k: nat)
    requires AD_ARRAY in s
    ensures k < |s| && s[k] == AD_ARRAY && AD_ARRAY !in s[..k]
    decreases |s|
  {
    if s[0] == AD_ARRAY {
      k := 0;
    } else {
      k := FirstTag(s[1..]);
      assert s[..k + 1] == [s[0]] + s[1..][..k];
      k := k + 1;
    }
  }

  /** One printed scalar without an array tag is collected as one element, and that element has the scalar's fate. */
  lemma {:induction false} ScalarIsCollected(v: Value, text: string, pos: nat, items: seq<Value>, post: string)
      returns (temp: string)
    requires Legible(v) && !v.Array? && EndsElement(post) && (v.Str? ==> AD_ARRAY !in v.text)
    requires 2 <= pos && At(text, pos, Print(v) + post)
    ensures |temp| + 2 <= pos + |Print(v)| < |text| && At(text, pos + |Print(v)|, post)
    ensures Scalars(text, pos, false, "", items) == CloseScalar(text, pos + |Print(v)|, temp, items)
    ensures Element(temp) == Fate(v)
  {
    hide *;
    if v.Str? {
      StringElement(v.text);
      StringLength(v.text);
      StringScalar(v.text, text, pos, items, post);
      temp := [AD_STRING] + v.text;
    } else {
      NumberElement(v);
      temp := Print(v);
      PlainScalar(temp, text, pos, "", items, post);
      assert "" + temp == temp;
    }
  }

  lemma {:induction false} StringElement(s: string)
    requires AD_ARRAY !in s
    ensures Element([AD_STRING] + s) == Fate(Str(s))
    ensures Legible(Str(s)) <==> AD_UNIT !in s
  {
    ElementIsBuilt([AD_STRING] + s);
  }

  lemma {:induction false} StringLength(s: string)
    ensures |Print(Str(s))| == |s| + 3
  {
  }

  lemma {:induction false} NumberElement(v: Value)
    requires Legible(v) && !v.Array? && !v.Str?
    ensures Print(v) != "" && AllPlain(Print(v)) && Element(Print(v)) == Fate(v)
  {
    hide Print, AllPlain, Build;
    NumberIsPlain(v);
    ElementIsBuilt(Print(v));
  }

  // ---------- What becomes of a printed array ----------

  lemma {:induction false} FateStep(done: seq<Value>, v: Value, tail: seq<Value>)
    ensures
      var whole := Array(done + [v] + tail);
      && (!Fate(v).Done? ==> FateOf([v] + tail, whole) == Fate(v))
      && (Fate(v).Done? ==> FateOf([v] + tail, whole) == FateOf(tail, whole))
      && (tail == [] ==> FateOf(tail, whole) == Done(Array(done + [v])))
  {
    hide Fate;
    assert ([v] + tail)[1..] == tail;
    if tail == [] {
      assert done + [v] + tail == done + [v];
    }
  }

  /** An element that parses at all parses to itself. */
  lemma {:induction false} FateIsItself(v: Value)
    ensures Fate(v).Done? ==> Fate(v) == Done(v)
    ensures !Fate(v).Refused?
    decreases v, 0
  {
    if v.Array? && v.items != [] {
      FateOfIsWhole(v.items, v);
    } else {
    }
  }

  lemma {:induction false} FateOfIsWhole(items: seq<Value>, whole: Value)
    ensures FateOf(items, whole).Done? ==> FateOf(items, whole) == Done(whole)
    ensures !FateOf(items, whole).Refused?
    decreases items, 1
  {
    if items == [] {
    } else {
      FateIsItself(items[0]);
      FateOfIsWhole(items[1..], whole);
    }
  }

  lemma {:induction false} FirstCharacter(v: Value)
    requires Legible(v)
    ensures Print(v) != "" && (Print(v)[0] == AD_ARRAY <==> v.Array?)
    ensures Print(v)[0] != AD_AS_RIGHT
  {
    if v.Array? {
      ArrayText(v.items);
    }
  }

  lemma {:induction false} ElementsStep(text: string, pos: nat, done: seq<Value>)
    requires 2 <= pos < |text|
    ensures text[pos] != AD_ARRAY ==> Elements(text, pos, done) == Scalars(text, pos, false, "", done)
    ensures text[pos] == AD_ARRAY ==> Scalars(text, pos, false, "", done) == Elements(text, pos, done)
    ensures pos + 2 < |text| && text[pos] == AD_ARRAY && text[pos + 1] == AD_AS_LEFT ==>
              Elements(text, pos, done) == Nested(text, pos + 2, 1, 0, false, [AD_ARRAY, AD_AS_LEFT], done)
  {
  }

  /** What follows an element that ends at `pos`: the end of the array, or the next element. */
  lemma {:induction false} AfterScalar(text: string, pos: nat, temp: string, done: seq<Value>, r: Outcome)
    requires |temp| + 2 <= pos < |text| && Element(temp) == r
    ensures !r.Done? ==> CloseScalar(text, pos, temp, done) == r
    ensures r.Done? && text[pos] == AD_AS_RIGHT && pos + 1 == |text| ==>
              CloseScalar(text, pos, temp, done) == Done(Array(done + [r.value]))
    ensures r.Done? && text[pos] == AD_SEPERATOR && pos + 1 < |text| ==>
              CloseScalar(text, pos, temp, done) == Scalars(text, pos + 1, false, "", done + [r.value])
  {
  }

  lemma {:induction false} AfterNested(text: string, close: nat, temp: string, done: seq<Value>, r: Outcome)
    requires |temp| + 1 <= close && close + 1 < |text| && Element(temp) == r
    ensures !r.Done? ==> CloseNested(text, close, temp, done) == r
    ensures r.Done? && text[close + 1] == AD_AS_RIGHT && close + 2 == |text| ==>
              CloseNested(text, close, temp, done) == Done(Array(done + [r.value]))
    ensures r.Done? && text[close + 1] == AD_SEPERATOR && close + 2 < |text| && text[close + 2] != AD_AS_RIGHT ==>
              CloseNested(text, close, temp, done) == Elements(text, close + 2, done + [r.value])
  {
  }

  /** What stands behind a printed element. */
  function Behind(tail: seq<Value>): string {
    if tail == [] then [AD_AS_RIGHT] else [AD_SEPERATOR] + (Join(tail) + [AD_AS_RIGHT])
  }

  lemma {:induction false} BehindEndsElement(tail: seq<Value>)
    ensures EndsElement(Behind(tail))
  {
  }

  lemma {:induction false} JoinSplits(items: seq<Value>)
    requires items != []
    ensures Join(items) + [AD_AS_RIGHT] == Print(items[0]) + Behind(items[1..])
  {
    hide Print;
    if |items| > 1 {
      var first, others := Print(items[0]), Join(items[1..]);
      Assoc(first + [AD_SEPERATOR], others, [AD_AS_RIGHT]);
      Assoc(first, [AD_SEPERATOR], others + [AD_AS_RIGHT]);
    }
  }

  /** The text behind an element: a final bracket, or a separator and no bracket. */
  lemma {:induction false} BehindElement(text: string, next: nat, tail: seq<Value>)
    requires At(text, next, Behind(tail)) && AllLegible(tail)
    ensures next < |text| && EndsElement(Behind(tail))
    ensures tail == [] ==> text[next] == AD_AS_RIGHT && next + 1 == |text|
    ensures tail != [] ==>
              && text[next] == AD_SEPERATOR && next + 1 < |text| && text[next + 1] != AD_AS_RIGHT
              && At(text, next + 1, Join(tail) + [AD_AS_RIGHT])
  {
    hide At, Join, Print;
    NextIs(text, next, Behind(tail));
    if tail != [] {
      FirstCharacter(tail[0]);
      JoinSplits(tail);
      MoveOne(text, next, AD_SEPERATOR, Join(tail) + [AD_AS_RIGHT]);
      NextIs(text, next + 1, Print(tail[0]) + Behind(tail[1..]));
    }
  }

  lemma {:induction false} FirstIsTame(items: seq<Value>)
    requires items != [] && AllTame(items)
    ensures Tame(items[0]) && AllTame(items[1..])
    ensures items[0].Array? ==> AllTame(items[0].items)
    ensures AllLegible(items)
  {
    forall i | 0 <= i < |items| ensures Legible(items[i]) {
      TameIsLegible(items[i]);
    }
  }

  lemma {:induction false} TameAreLegible(items: seq<Value>)
    requires AllTame(items)
    ensures AllLegible(items)
  {
    if items == [] {
    } else {
      FirstIsTame(items);
    }
  }

  /** From the first character of the printed `rest`, the loops read `rest` up to its first failure. */
  lemma {:induction false} ItemsParse(text: string, pos: nat, done: seq<Value>, rest: seq<Value>)
    requires 2 <= pos && rest != [] && AllTame(rest)
    requires At(text, pos, Join(rest) + [AD_AS_RIGHT])
    ensures pos < |text|
    ensures Elements(text, pos, done) == FateOf(rest, Array(done + rest))
    ensures Scalars(text, pos, false, "", done) == FateOf(rest, Array(done + rest))
    decreases |text|, |rest|, 2
  {
    hide *;
    var v, tail := rest[0], rest[1..];
    FirstIsTame(rest);
    TameIsLegible(v);
    JoinSplits(rest);
    FirstCharacter(v);
    MoveOn(text, pos, Print(v), Behind(tail));
    ElementsStep(text, pos, done);
    assert rest == [v] + tail;
    assert done + rest == done + [v] + tail;
    if v.Array? {
      ArrayItemParses(text, pos, done, v.items, tail);
    } else {
      ScalarItemParses(text, pos, done, v, tail);
    }
  }

  lemma {:induction false} TaggedIsFatal(v: Value)
    ensures Tame(v) && v.Str? ==> AD_UNIT !in v.text && NoOpening(v.text) && v == Str(v.text)
    ensures v.Str? && AD_ARRAY in v.text ==> Fate(v) == Terminated
  {
  }

  /** A scalar is collected, and the loop goes on behind it; or its tag ends the process. */
  lemma {:induction false} ScalarItemParses(text: string, pos: nat, done: seq<Value>, v: Value, tail: seq<Value>)
    requires 2 <= pos && Tame(v) && !v.Array? && AllTame(tail)
    requires At(text, pos, Print(v) + Behind(tail))
    ensures pos <= |text|
    ensures Scalars(text, pos, false, "", done) == FateOf([v] + tail, Array(done + [v] + tail))
    decreases |text|, |tail| + 1, 1
  {
    hide *;
    FateStep(done, v, tail);
    TaggedIsFatal(v);
    if v.Str? && AD_ARRAY in v.text {
      TagTerminates(v.text, text, pos, done, Behind(tail));
    } else {
      TameIsLegible(v);
      TameAreLegible(tail);
      BehindEndsElement(tail);
      FateIsItself(v);
      var temp := ScalarIsCollected(v, text, pos, done, Behind(tail));
      var next := pos + |Print(v)|;
      BehindElement(text, next, tail);
      AfterScalar(text, next, temp, done, Fate(v));
      if tail != [] && Fate(v).Done? {
        ItemsParse(text, next + 1, done + [v], tail);
      }
    }
  }

  /** The bracket scan cuts a printed array out of the text, whole and nothing more. */
  lemma {:induction false} NestedIsCut(text: string, pos: nat, done: seq<Value>, es: seq<Value>, post: string, close: nat)
    requires 2 <= pos && AllLegible(es)
    requires At(text, pos, Print(Array(es)) + post)
    requires close + 1 == pos + |Print(Array(es))|
    ensures |Print(Array(es))| + 1 <= close < |text| && text[pos] == AD_ARRAY && At(text, close + 1, post)
    ensures Elements(text, pos, done) == CloseNested(text, close, Print(Array(es)), done)
  {
    hide *;
    ArrayText(es);
    var begun, joined := [AD_ARRAY, AD_AS_LEFT], Join(es);
    var post' := [AD_AS_RIGHT] + post;
    Assoc(begun + joined, [AD_AS_RIGHT], post);
    Assoc(begun, joined, post');
    OpenArray(text, pos, joined + post', done);
    var k := ScanJoin(es, text, pos + 2, 1, 0, begun, done, post');
    MoveOne(text, close, AD_AS_RIGHT, post);
    ScanBracket(text, close, 1 + k, k, begun + joined, done);
  }

  lemma {:induction false} OpenArray(text: string, pos: nat, rest: string, done: seq<Value>)
    requires 2 <= pos && At(text, pos, [AD_ARRAY, AD_AS_LEFT] + rest) && rest != ""
    ensures pos + 2 < |text| && text[pos] == AD_ARRAY && At(text, pos + 2, rest)
    ensures Elements(text, pos, done) == Nested(text, pos + 2, 1, 0, false, [AD_ARRAY, AD_AS_LEFT], done)
  {
    hide Elements, Nested, Scalars;
    MoveOn(text, pos, [AD_ARRAY, AD_AS_LEFT], rest);
    assert text[pos + 1] == text[pos..][1];
    ElementsStep(text, pos, done);
  }

  /** A nested array is parsed on its own, and the loop goes on behind it. */
  lemma {:induction false} ArrayItemParses(text: string, pos: nat, done: seq<Value>, es: seq<Value>, tail: seq<Value>)
    requires 2 <= pos && AllTame(es) && AllTame(tail)
    requires At(text, pos, Print(Array(es)) + Behind(tail))
    ensures pos <= |text|
    ensures Elements(text, pos, done) == FateOf([Array(es)] + tail, Array(done + [Array(es)] + tail))
    decreases |text|, |tail| + 1, 1
  {
    hide *;
    var v := Array(es);
    FateStep(done, v, tail);
    TameAreLegible(es);
    TameAreLegible(tail);
    PrintedArrayIsShorter(text, pos, es, Behind(tail));
    var close := pos + |Print(v)| - 1;
    NestedIsCut(text, pos, done, es, Behind(tail), close);
    BehindElement(text, close + 1, tail);
    PrintedArrayParses(es);
    FateIsItself(v);
    ElementIsBuilt(Print(v));
    AfterNested(text, close, Print(v), done, Fate(v));
    if Fate(v).Done? && tail != [] {
      ItemsParse(text, close + 2, done + [v], tail);
    }
  }

  lemma {:induction false} PrintedArrayIsShorter(text: string, pos: nat, es: seq<Value>, post: string)
    requires 2 <= pos && AllLegible(es) && At(text, pos, Print(Array(es)) + post)
    ensures 1 <= |Print(Array(es))| < |text|
  {
    ArrayText(es);
    NextIs(text, pos, Print(Array(es)) + post);
  }

  /** What becomes of a printed tame array is its fate: itself, or the failure of its first element that fails. */
  lemma {:induction false} PrintedArrayParses(items: seq<Value>)
    requires AllTame(items)
    ensures Print(Array(items)) != ""
    ensures Build(Print(Array(items))) == Fate(Array(items))
    decreases |Print(Array(items))|, |items|, 3
  {
    hide *;
    var text := Print(Array(items));
    TameAreLegible(items);
    ArrayBegins(items);
    FateOfArray(items);
    if items == [] {
      EmptyArrayReadsPastEnd();
    } else {
      ItemsParse(text, 2, [], items);
      assert [] + items == items;
      ParseOfArray(text);
    }
  }

  lemma {:induction false} ArrayBegins(items: seq<Value>)
    requires AllLegible(items)
    ensures
      var text := Print(Array(items));
      && At(text, 2, Join(items) + [AD_AS_RIGHT]) && text[0] == AD_ARRAY && text[1] == AD_AS_LEFT
      && (items == [] ==> text == [AD_ARRAY, AD_AS_LEFT, AD_AS_RIGHT])
  {
    hide Print;
    ArrayText(items);
  }

  lemma {:induction false} FateOfArray(items: seq<Value>)
    ensures Fate(Array(items)) == if items == [] then PastEnd else FateOf(items, Array(items))
  {
  }

  lemma {:induction false} EmptyArrayReadsPastEnd()
    ensures Build([AD_ARRAY, AD_AS_LEFT, AD_AS_RIGHT]) == PastEnd
  {
    var text := [AD_ARRAY, AD_AS_LEFT, AD_AS_RIGHT];
    assert Scalars(text, 2, false, "", []) == PastEnd;
  }

  /** Of the text of a tame array no other value ever comes out. */
  lemma {:induction false} NothingElseComesOut(items: seq<Value>)
    requires AllTame(items)
    ensures Parse(Print(Array(items))).Done? ==> Parse(Print(Array(items))) == Done(Array(items))
    ensures Parse(Print(Array(items))) == Fate(Array(items))
  {
    hide *;
    PrintedArrayParses(items);
    FateIsItself(Array(items));
    assert Parse(Print(Array(items))) == Build(Print(Array(items))) by { ParseIsBuild(Print(Array(items))); }
  }

  lemma {:induction false} ParseIsBuild(text: string)
    requires text != ""
    ensures Parse(text) == Build(text)
  {
  }

  /** Clean strings never fail, and an empty array reads past the end. */
  lemma {:induction false} FateOfNestable(v: Value)
    requires Nestable(v)
    ensures Fate(v) == if Full(v) then Done(v) else PastEnd
    decreases v, 0
  {
    if v.Array? && v.items != [] {
      FateOfAllNestable(v.items, v);
    } else {
    }
  }

  lemma {:induction false} FateOfAllNestable(items: seq<Value>, whole: Value)
    requires AllNestable(items)
    ensures FateOf(items, whole) == if AllFull(items) then Done(whole) else PastEnd
    decreases items, 1
  {
    if items == [] {
    } else {
      FateOfNestable(items[0]);
      FateOfAllNestable(items[1..], whole);
      assert AllFull(items) <==> Full(items[0]) && AllFull(items[1..]) by {
        assert forall i :: 0 <= i < |items| - 1 ==> items[1..][i] == items[i + 1];
        assert forall i :: 1 <= i < |items| ==> items[i] == items[1..][i - 1];
      }
    }
  }

  /** The round trip holds exactly for the values in the domain. */
  lemma {:induction false} RoundTrip(v: Value)
    ensures Parse(Print(v)) == Done(v) <==> InDomain(v)
  {
    match v {
      case Null =>
      case Str(s) =>
        assert Print(v)[1..] == [AD_UNIT] + s + [AD_UNIT];
      case Array(items) =>
        if AllNestable(items) {
          NestableIsTame(v);
          PrintedArrayParses(items);
          FateOfNestable(v);
        } else if Parse(Print(v)) == Done(v) {
          ParsedIsNestable(Print(v), v);
        }
      case _ =>
        NumberIsPlain(v);
    }
  }

  /** A string on its own comes back with the two unit marks that the printer put round it. */
  lemma {:induction false} LoneStringKeepsItsMarks(s: string)
    ensures Parse(Print(Str(s))) == Done(Str([AD_UNIT] + s + [AD_UNIT]))
  {
    assert Print(Str(s))[1..] == [AD_UNIT] + s + [AD_UNIT];
  }

  /** Inside the domain different values have different texts. */
  lemma {:induction false} PrintIsInjective(a: Value, b: Value)
    requires InDomain(a) && InDomain(b) && Print(a) == Print(b)
    ensures a == b
  {
    hide *;
    RoundTrip(a);
    RoundTrip(b);
  }

  /** A quoted array tag that begins no array ends the process, if the elements in front of its string parse. */
  lemma {:induction false} QuotedTagTerminates(front: seq<Value>, s: string, back: seq<Value>)
    requires AllTame(front + [Str(s)] + back) && AD_ARRAY in s
    requires forall i :: 0 <= i < |front| ==> Fate(front[i]).Done?
    ensures Parse(Print(Array(front + [Str(s)] + back))) == Terminated
  {
    hide Parse, Print, Tame;
    var items := front + [Str(s)] + back;
    NothingElseComesOut(items);
    FirstFailureDecides(front, Str(s), back, Array(items));
  }

  /** The shortest such array takes the process down. */
  lemma {:induction false} QuotedAtSignTerminates()
    ensures Parse(Print(Array([Str("@")]))) == Terminated
  {
    assert [] + [Str("@")] + [] == [Str("@")];
    assert AllTame([Str("@")]) by { assert NoOpening("@") && AD_UNIT !in "@"; }
    QuotedTagTerminates([], "@", []);
  }

  lemma {:induction false} FirstFailureDecides(front: seq<Value>, v: Value, back: seq<Value>, whole: Value)
    requires !Fate(v).Done? && forall i :: 0 <= i < |front| ==> Fate(front[i]).Done?
    ensures FateOf(front + [v] + back, whole) == Fate(v)
    decreases |front|
  {
    hide Fate;
    if front == [] {
      assert front + [v] + back == [v] + back;
    } else {
      assert (front + [v] + back)[1..] == front[1..] + [v] + back;
      FirstFailureDecides(front[1..], v, back, whole);
    }
  }

  /** The printed elements, each with a separator behind it. */
  function Parted(items: seq<Value>): string {
    if items == [] then "" else Print(items[0]) + ([AD_SEPERATOR] + Parted(items[1..]))
  }

  /** An element that parses, with more behind it, is read as itself and the loop goes on. */
  lemma {:induction false} ItemIsRead(text: string, pos: nat, done: seq<Value>, v: Value, more: string)
    requires 2 <= pos && Tame(v) && Fate(v).Done? && more != "" && more[0] != AD_AS_RIGHT
    requires At(text, pos, Print(v) + ([AD_SEPERATOR] + more))
    ensures pos + |Print(v)| + 1 < |text| && At(text, pos + |Print(v)| + 1, more)
    ensures Elements(text, pos, done) == Elements(text, pos + |Print(v)| + 1, done + [v])
  {
    hide *;
    UntaggedIfDone(v);
    TameIsLegible(v);
    FateIsItself(v);
    FirstCharacter(v);
    var post, next := [AD_SEPERATOR] + more, pos + |Print(v)|;
    assert EndsElement(post) by { SeparatorEnds(more); }
    MoveOn(text, pos, Print(v), post);
    MoveOne(text, next, AD_SEPERATOR, more);
    NextIs(text, next + 1, more);
    ElementsStep(text, pos, done);
    ElementsStep(text, next + 1, done + [v]);
    if v.Array? {
      assert AllTame(v.items) && Array(v.items) == v by { ItemsOfTame(v); }
      TameAreLegible(v.items);
      NestedIsCut(text, pos, done, v.items, post, next - 1);
      PrintedArrayParses(v.items);
      ElementIsBuilt(Print(v));
      AfterNested(text, next - 1, Print(v), done, Fate(v));
    } else {
      var temp := ScalarIsCollected(v, text, pos, done, post);
      AfterScalar(text, next, temp, done, Fate(v));
    }
  }

  lemma {:induction false} UntaggedIfDone(v: Value)
    ensures Fate(v).Done? && v.Str? ==> AD_ARRAY !in v.text
  {
  }

  lemma {:induction false} SeparatorEnds(more: string)
    ensures EndsElement([AD_SEPERATOR] + more)
  {
  }

  lemma {:induction false} ItemsOfTame(v: Value)
    requires Tame(v) && v.Array?
    ensures AllTame(v.items) && Array(v.items) == v
  {
  }

  lemma {:induction false} FrontIsRead(text: string, pos: nat, done: seq<Value>, front: seq<Value>, more: string)
    requires 2 <= pos && AllTame(front) && more != "" && more[0] != AD_AS_RIGHT
    requires forall i :: 0 <= i < |front| ==> Fate(front[i]).Done?
    requires At(text, pos, Parted(front) + more)
    ensures pos + |Parted(front)| <= |text| && At(text, pos + |Parted(front)|, more)
    ensures Elements(text, pos, done) == Elements(text, pos + |Parted(front)|, done + front)
    decreases |front|
  {
    hide At, Elements, Tame, Fate, Print;
    if front == [] {
      assert done + front == done && Parted(front) + more == more;
      MoveOn(text, pos, "", more);
    } else {
      var v, rest := front[0], Parted(front[1..]) + more;
      assert Parted(front) + more == Print(v) + ([AD_SEPERATOR] + rest);
      assert rest != "" && rest[0] != AD_AS_RIGHT by { FrontBegins(front[1..], more); }
      ItemIsRead(text, pos, done, v, rest);
      FrontIsRead(text, pos + |Print(v)| + 1, done + [v], front[1..], more);
      assert done + [v] + front[1..] == done + front;
    }
  }

  lemma {:induction false} FrontBegins(front: seq<Value>, more: string)
    requires AllTame(front) && more != "" && more[0] != AD_AS_RIGHT
    ensures Parted(front) + more != "" && (Parted(front) + more)[0] != AD_AS_RIGHT
  {
    if front == [] {
      assert Parted(front) + more == more;
    } else {
      TameIsLegible(front[0]);
      FirstCharacter(front[0]);
    }
  }

  lemma {:induction false} JoinWithFront(front: seq<Value>, items: seq<Value>)
    requires items != []
    ensures Join(front + items) == Parted(front) + Join(items)
    decreases |front|
  {
    hide Print;
    if front == [] {
      assert front + items == items && Parted(front) + Join(items) == Join(items);
    } else {
      assert (front + items)[1..] == front[1..] + items;
      JoinWithFront(front[1..], items);
      Assoc(Print(front[0]), [AD_SEPERATOR], Parted(front[1..]) + Join(items));
      Assoc([AD_SEPERATOR], Parted(front[1..]), Join(items));
      Assoc(Print(front[0]), [AD_SEPERATOR] + Parted(front[1..]), Join(items));
    }
  }

  /**
   * What becomes of an array whose first string with a tag has only elements in front of it that parse: the rest
   * of its text is read on from that tag. Another value comes out exactly if that reading succeeds.
   */
  lemma {:induction false} ArrayIsReread(front: seq<Value>, a: string, b: string, back: seq<Value>)
    requires AllTame(front) && AllLegible([Str(a + [AD_ARRAY] + b)] + back) && AD_ARRAY !in a
    requires forall i :: 0 <= i < |front| ==> Fate(front[i]).Done?
    ensures
      var v := Array(front + [Str(a + [AD_ARRAY] + b)] + back);
      var at := 4 + |Parted(front)| + |a|;
      && at < |Print(v)| && Print(v)[at] == AD_ARRAY
      && Parse(Print(v)) == Elements(Print(v), at, front)
      && Parse(Print(v)) != Done(v)
  {
    hide *;
    var v, s := Array(front + [Str(a + [AD_ARRAY] + b)] + back), a + [AD_ARRAY] + b;
    var text, more := Print(v), Print(Str(s)) + Behind(back);
    TextFrom(front, Str(s), back);
    TaggedString(a, b, front, back);
    FrontIsRead(text, 2, [], front, more);
    assert [] + front == front;
    var pos := 2 + |Parted(front)|;
    NextIs(text, pos, more);
    TagReopens(a, b, text, pos, front, Behind(back));
    ElementsStep(text, pos, front);
    ParseOfArray(text);
    RoundTrip(v);
  }

  lemma {:induction false} TaggedString(a: string, b: string, front: seq<Value>, back: seq<Value>)
    requires AllLegible([Str(a + [AD_ARRAY] + b)] + back)
    ensures AD_UNIT !in a && !InDomain(Array(front + [Str(a + [AD_ARRAY] + b)] + back))
  {
    var s := a + [AD_ARRAY] + b;
    assert ([Str(s)] + back)[0] == Str(s) && (front + [Str(s)] + back)[|front|] == Str(s);
    assert s[|a|] == AD_ARRAY;
    assert forall i :: 0 <= i < |a| ==> s[i] == a[i];
    assert !Nestable(Str(s));
  }

  lemma {:induction false} TextFrom(front: seq<Value>, v: Value, back: seq<Value>)
    requires AllTame(front) && AllLegible([v] + back)
    ensures
      var text, more := Print(Array(front + [v] + back)), Print(v) + Behind(back);
      && At(text, 2, Parted(front) + more) && more != "" && more[0] != AD_AS_RIGHT
      && 2 <= |text| && text[0] == AD_ARRAY && text[1] == AD_AS_LEFT
      && (!v.Array? ==> more[0] != AD_ARRAY)
  {
    hide Print, Join, Tame, Legible;
    var items := [v] + back;
    assert front + [v] + back == front + items && items[0] == v && items[1..] == back;
    TameAreLegible(front);
    ArrayText(front + items);
    JoinWithFront(front, items);
    JoinSplits(items);
    FirstCharacter(v);
    var text, more := Print(Array(front + items)), Print(v) + Behind(back);
    assert Parted(front) + Join(items) + [AD_AS_RIGHT] == Parted(front) + more by {
      Assoc(Parted(front), Join(items), [AD_AS_RIGHT]);
    }
    assert text[2..] == Join(front + items) + [AD_AS_RIGHT];
  }

  lemma {:induction false} ParseOfArray(text: string)
    requires 2 <= |text| && text[0] == AD_ARRAY && text[1] == AD_AS_LEFT
    ensures Parse(text) == Build(text) == Elements(text, 2, [])
  {
  }

  const ONE: Value := Array([Unsigned(1)])

  lemma {:induction false} OneParses()
    ensures Print(ONE) == "@[+1]" && Element("@[+1]") == Done(ONE)
  {
    assert Digits(1, 10) == "1";
    assert Fields(ONE.items[1..]) == "";
    assert Fields(ONE.items) == "+1,";
    RoundTrip(ONE);
  }

  /** One character of a scalar that does not end it. */
  lemma {:induction false} ScalarsStep(text: string, pos: nat, ignore: bool, temp: string, items: seq<Value>)
    requires |temp| + 2 <= pos && pos + 1 < |text| && text[pos] != AD_ARRAY
    ensures ignore && text[pos] != AD_UNIT ==>
              Scalars(text, pos, ignore, temp, items) == Scalars(text, pos + 1, true, temp + [text[pos]], items)
    ensures !ignore && text[pos] == AD_UNIT ==>
              Scalars(text, pos, ignore, temp, items) == Scalars(text, pos + 1, true, temp, items)
    ensures !ignore && text[pos] != AD_UNIT && text[pos + 1] != AD_SEPERATOR && text[pos + 1] != AD_AS_RIGHT ==>
              Scalars(text, pos, ignore, temp, items) == Scalars(text, pos + 1, false, temp + [text[pos]], items)
  {
  }

  /** An array that stands in the text is cut out and becomes an element. */
  lemma {:induction false} OneIsRead(text: string, pos: nat, done: seq<Value>, post: string)
    requires 2 <= pos && At(text, pos, "@[+1]" + post) && post != ""
    ensures pos + 5 < |text|
    ensures text[pos + 5] == AD_AS_RIGHT && pos + 6 == |text| ==> Elements(text, pos, done) == Done(Array(done + [ONE]))
    ensures text[pos + 5] == AD_SEPERATOR && pos + 6 < |text| && text[pos + 6] != AD_AS_RIGHT ==>
              Elements(text, pos, done) == Elements(text, pos + 6, done + [ONE])
  {
    hide *;
    OneParses();
    assert ONE == Array([Unsigned(1)]) && AllLegible([Unsigned(1)]) by { OneIsLegible(); }
    NestedIsCut(text, pos, done, [Unsigned(1)], post, pos + 4);
    NextIs(text, pos + 5, post);
    AfterNested(text, pos + 4, "@[+1]", done, Done(ONE));
  }

  lemma {:induction false} OneIsLegible()
    ensures ONE == Array([Unsigned(1)]) && AllLegible([Unsigned(1)])
  {
  }

  /**
   * A string that holds an array tag and a bracket can let another value out: its first characters are dropped,
   * the array in it is read as an element, and what follows up to the next tag is dropped too.
   */
  lemma {:induction false} AnotherValueComesOut()
    ensures Parse(Print(Array([Str("@[+1],+2"), ONE]))) == Done(Array([ONE, ONE]))
  {
    var v := Array([Str("@[+1],+2"), ONE]);
    var quoted := [AD_STRING, AD_UNIT] + "@[+1],+2" + [AD_UNIT];
    var text := "@[" + quoted + ",@[+1]]";
    assert Print(v) == text by {
      OneParses();
      assert Print(Str("@[+1],+2")) == quoted;
      assert v.items[1..][1..] == [];
      assert Fields(v.items[1..]) == "@[+1],";
      assert Fields(v.items) == quoted + "," + "@[+1],";
    }
    StringIsReread(text);
    assert Parse(text) == Elements(text, 2, []);
  }

  lemma {:induction false} StringIsReread(text: string)
    requires text == "@[" + ([AD_STRING, AD_UNIT] + "@[+1],+2" + [AD_UNIT]) + ",@[+1]]"
    ensures Elements(text, 2, []) == Done(Array([ONE, ONE]))
  {
    hide Elements, Scalars, Nested, Print;
    assert text[4..] == "@[+1]" + text[9..] && text[14..] == "@[+1]" + text[19..];
    ElementsStep(text, 2, []);
    ScalarsOpenString(text, 2, []);
    ScalarsAtTag(text, 4, true, [AD_STRING], []);
    OneIsRead(text, 4, [], text[9..]);
    assert [] + [ONE] == [ONE] && [ONE] + [ONE] == [ONE, ONE];
    ElementsStep(text, 10, [ONE]);
    ScalarsStep(text, 10, false, "", [ONE]);
    ScalarsStep(text, 11, false, "" + [text[10]], [ONE]);
    var temp := "" + [text[10]] + [text[11]];
    ScalarsStep(text, 12, false, temp, [ONE]);
    ScalarsStep(text, 13, true, temp, [ONE]);
    ScalarsAtTag(text, 14, true, temp + [text[13]], [ONE]);
    OneIsRead(text, 14, [ONE], text[19..]);
  }
}
