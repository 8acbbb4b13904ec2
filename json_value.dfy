/**
 * The part of JavaScript's value semantics that the decoder's content test touches:
 * the values `JSON.parse` can return, property reads, truthiness, and the string
 * conversion that `innerHTML += value` performs.
 */
module JsonValue {

  /** A value produced by `JSON.parse`. Numbers are integers in this model. */
  datatype Json =
    | Null
    | Bool(b: bool)
    | Num(n: int)
    | Str(s: string)
    | Arr(elems: seq<Json>)
    | Obj(fields: map<string, Json>)

  /** The result of a property read: `undefined` or a value. */
  datatype Prop = Undefined | Value(v: Json)

  /** JavaScript truthiness of a property read. */
  predicate Truthy(p: Prop) {
    match p
    case Undefined => false
    case Value(v) =>
      match v
      case Null => false
      case Bool(b) => b
      case Num(n) => n != 0
      case Str(s) => s != ""
      case Arr(_) => true
      case Obj(_) => true
  }

  /** `v[key]` for the property names the decoder uses (`choices`, `delta`, `content`):
      only an object's own field can supply them; arrays, strings, numbers and
      booleans have no such property. `v` is neither null nor undefined here. */
  function Get(v: Json, key: string): (r: Prop)
    ensures r.Value? <==> v.Obj? && key in v.fields
  {
    if v.Obj? && key in v.fields then Value(v.fields[key]) else Undefined
  }

  /** The values JavaScript treats as false in a condition, among those a JSON
      payload can hold: undefined, null, false, 0 and the empty string. */
  lemma FalsyValues(p: Prop)
    ensures !Truthy(p) <==>
      p == Undefined || p == Value(Null) || p == Value(Bool(false))
      || p == Value(Num(0)) || p == Value(Str(""))
  {
  }

  /** `v[0]` on a value that is neither null nor undefined. */
  function Index0(v: Json): (r: Prop)
    ensures r.Value? ==> v.Arr? || v.Obj? || v.Str?
    ensures v.Arr? ==> (r.Value? <==> |v.elems| > 0) && (r.Value? ==> r.v == v.elems[0])
    ensures v.Str? ==> (r.Value? <==> |v.s| > 0) && (r.Value? ==> r.v == Str(v.s[..1]))
  {
    match v
    case Arr(es) => if |es| > 0 then Value(es[0]) else Undefined
    case Obj(fs) => if "0" in fs then Value(fs["0"]) else Undefined
    case Str(s) => if |s| > 0 then Value(Str(s[..1])) else Undefined
    case _ => Undefined
  }

  /** What the content test of one parsed payload does: throw a TypeError (a
      property read on null or undefined), skip the payload, or push a token. */
  datatype Extracted = Throws | Skip | Push(token: string)

  /** The content test and read: `responseData.choices && responseData.choices[0].delta
      && responseData.choices[0].delta.content`, then the token that is pushed. */
  function ExtractContent(v: Json): (r: Extracted)
    ensures r.Push? ==> v.Obj? && "choices" in v.fields
  {
    if v.Null? then Throws
    else
      var choices := Get(v, "choices");
      if !Truthy(choices) then Skip
      else
        var first := Index0(choices.v);
        if first.Undefined? || first.v.Null? then Throws
        else
          var delta := Get(first.v, "delta");
          if !Truthy(delta) then Skip
          else
            var content := Get(delta.v, "content");
            if !Truthy(content) then Skip else Push(ToText(content.v))
  }

  /** The content test throws exactly when the parsed value is `null`, or when
      `choices` is truthy but `choices[0]` is `undefined` or `null`. */
  lemma ExtractThrowsIff(v: Json)
    ensures ExtractContent(v).Throws? <==>
      v.Null? || (Truthy(Get(v, "choices"))
                  && (Index0(Get(v, "choices").v).Undefined? || Index0(Get(v, "choices").v).v.Null?))
  {
  }

  /** A token is pushed exactly when `choices`, `choices[0].delta` and
      `choices[0].delta.content` are all truthy, and the token is that content's text. */
  lemma ExtractPushIff(v: Json)
    ensures ExtractContent(v).Push? <==>
      !v.Null? && Truthy(Get(v, "choices"))
      && Index0(Get(v, "choices").v).Value? && !Index0(Get(v, "choices").v).v.Null?
      && Truthy(Get(Index0(Get(v, "choices").v).v, "delta"))
      && Truthy(Get(Get(Index0(Get(v, "choices").v).v, "delta").v, "content"))
    ensures ExtractContent(v).Push? ==>
      ExtractContent(v).token == ToText(Get(Get(Index0(Get(v, "choices").v).v, "delta").v, "content").v)
  {
  }

  /** `String(v)`: the text that `innerHTML += v` appends. A string token is
      appended as it is, and a number as the decimal numeral that stands for it. */
  function ToText(v: Json): (r: string)
    ensures v.Str? ==> r == v.s
    ensures v.Num? ==> NumeralValue(r) == v.n
    decreases v, 1
  {
    match v
    case Null => "null"
    case Bool(b) => if b then "true" else "false"
    case Num(n) => IntToText(n)
    case Str(s) => s
    case Arr(es) => JoinElems(v, es)
    case Obj(_) => "[object Object]"
  }

  /** `Array.prototype.join(",")` over the elements of `whole`, whose `null` elements print as "". */
  function JoinElems(ghost whole: Json, es: seq<Json>): string
    requires forall e :: e in es ==> e < whole
    decreases whole, 0, |es|
  {
    if es == [] then ""
    else
      assert es[0] in es;
      assert forall e :: e in es[1..] ==> e in es;
      var head := if es[0].Null? then "" else ToText(es[0]);
      if |es| == 1 then head else head + "," + JoinElems(whole, es[1..])
  }

  /** The number a decimal numeral stands for. */
  function DigitsValue(s: string): int
    decreases |s|
  {
    if s == [] then 0 else DigitsValue(s[..|s| - 1]) * 10 + (s[|s| - 1] as int - '0' as int)
  }

  /** The number an optionally signed decimal numeral stands for. */
  function NumeralValue(s: string): int {
    if |s| > 0 && s[0] == '-' then -DigitsValue(s[1..]) else DigitsValue(s)
  }

  /** `String(n)` for an integer: a minus sign for negative numbers, then the digits. */
  function IntToText(n: int): (r: string)
    ensures NumeralValue(r) == n
  {
    if n < 0 then
      var r := "-" + NatToText(-n);
      assert r[1..] == NatToText(-n);
      r
    else NatToText(n)
  }

  /** Decimal digits of `n`, without leading zeros. */
  function NatToText(n: nat): (r: string)
    ensures |r| >= 1 && (|r| > 1 ==> r[0] != '0')
    ensures forall i :: 0 <= i < |r| ==> '0' <= r[i] <= '9'
    ensures DigitsValue(r) == n
  {
    var d := ['0' + ((n % 10) as char)];
    if n < 10 then
      assert d[..0] == [];
      d
    else
      var r := NatToText(n / 10) + d;
      assert r[..|r| - 1] == NatToText(n / 10);
      r
  }

  /** A chunk in the shape the chat API documents, `{"choices":[{"delta":{"content":s}}, ...]}`
      (other fields allowed), yields `s` as its token when `s` is not empty, and nothing otherwise. */
  lemma DocumentedShape(v: Json, first: Json, delta: Json, s: string)
    requires v.Obj? && "choices" in v.fields && v.fields["choices"].Arr?
    requires |v.fields["choices"].elems| > 0 && v.fields["choices"].elems[0] == first
    requires first.Obj? && "delta" in first.fields && first.fields["delta"] == delta
    requires delta.Obj? && "content" in delta.fields && delta.fields["content"] == Str(s)
    ensures ExtractContent(v) == if s == "" then Skip else Push(s)
  {
  }

  /** An empty `choices` array makes `choices[0].delta` throw, so the payload takes
      the parse-failure path even though it is well-formed JSON. */
  lemma EmptyChoicesThrows(v: Json)
    requires v.Obj? && "choices" in v.fields && v.fields["choices"] == Arr([])
    ensures ExtractContent(v) == Throws
  {
  }
}
