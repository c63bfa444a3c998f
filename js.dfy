/**
 * JavaScript values as they travel through the hospital backend: JSON scalars
 * in request bodies and result rows, objects as ordered key/value entries
 * (JavaScript keeps insertion order for string keys), and the string helpers
 * the controllers use to build text (`Array.prototype.join`, number-to-text).
 */
module Js {

  datatype Option<T> = None | Some(value: T)

  /** A JSON scalar. `undefined` is not a value: it is the absence of a key. */
  datatype Value = Null | Num(n: int) | Str(s: string)

  /** A plain object: its entries in insertion order. */
  type Object = seq<(string, Value)>

  /** `Object.keys(o)` */
  function Keys(o: Object): (ks: seq<string>)
    ensures |ks| == |o|
    ensures forall i :: 0 <= i < |o| ==> ks[i] == o[i].0
  {
    if o == [] then [] else [o[0].0] + Keys(o[1..])
  }

  /** The keys of a concatenation are the concatenated keys. */
  lemma KeysAppend(a: Object, b: Object)
    ensures Keys(a + b) == Keys(a) + Keys(b)
  {
    var l, r := Keys(a + b), Keys(a) + Keys(b);
    forall i | 0 <= i < |l|
      ensures l[i] == r[i]
    {
      if i < |a| {
        assert (a + b)[i] == a[i];
      } else {
        assert (a + b)[i] == b[i - |a|];
      }
    }
  }

  /** `o[k]`: the value of the first entry with key `k`, or `None` for `undefined`. */
  function Get(o: Object, k: string): (r: Option<Value>)
    ensures r.None? <==> k !in Keys(o)
    ensures r.Some? ==> (k, r.value) in o
  {
    if o == [] then None
    else if o[0].0 == k then Some(o[0].1)
    else Get(o[1..], k)
  }

  /** No key occurs twice. */
  predicate DistinctKeys(o: Object) {
    forall i, j :: 0 <= i < j < |o| ==> o[i].0 != o[j].0
  }

  /** `parts.join(sep)` */
  function Join(parts: seq<string>, sep: string): (r: string)
    ensures |parts| == 1 ==> r == parts[0]
    ensures parts == [] ==> r == ""
  {
    if |parts| == 0 then ""
    else if |parts| == 1 then parts[0]
    else Join(parts[..|parts| - 1], sep) + sep + parts[|parts| - 1]
  }

  lemma JoinAppend(parts: seq<string>, sep: string, x: string)
    requires parts != []
    ensures Join(parts + [x], sep) == Join(parts, sep) + sep + x
  {
    assert (parts + [x])[..|parts|] == parts;
  }

  function DigitChar(d: nat): (c: char)
    requires d < 10
    ensures '0' <= c <= '9'
  {
    "0123456789"[d]
  }

  /** Decimal text of a natural number, without leading zeros. */
  function NatToString(n: nat): (s: string)
    ensures |s| >= 1
    ensures forall i :: 0 <= i < |s| ==> '0' <= s[i] <= '9'
    ensures n >= 10 ==> s[0] != '0'
  {
    if n < 10 then [DigitChar(n)] else NatToString(n / 10) + [DigitChar(n % 10)]
  }

  /** The value of a string of decimal digits. */
  function DigitsValue(s: string): nat
    requires forall i :: 0 <= i < |s| ==> '0' <= s[i] <= '9'
  {
    if s == [] then 0 else 10 * DigitsValue(s[..|s| - 1]) + (s[|s| - 1] as int - '0' as int)
  }

  /** NatToString is inverted by reading the digits back: the text determines the number. */
  lemma {:induction false} NatToStringRoundTrip(n: nat)
    ensures DigitsValue(NatToString(n)) == n
  {
    if n >= 10 {
      var s := NatToString(n);
      assert s[..|s| - 1] == NatToString(n / 10);
      NatToStringRoundTrip(n / 10);
    }
  }

  lemma NatToStringInjective(m: nat, n: nat)
    requires NatToString(m) == NatToString(n)
    ensures m == n
  {
    NatToStringRoundTrip(m);
    NatToStringRoundTrip(n);
  }

  /** `String(n)` for an integer: a leading '-' for negatives. */
  function IntToString(n: int): (s: string)
    ensures |s| >= 1
    ensures (s[0] == '-') <==> n < 0
  {
    if n < 0 then "-" + NatToString(-n) else NatToString(n)
  }

  /** What a handler puts under `data`: an array of rows or a single row. */
  datatype Payload = Rows(rows: seq<Object>) | Row(row: Object)

  /**
   * A JSON reply: the HTTP status and the envelope
   * `{success, data?, message?, error?}`; absent fields are `None`.
   */
  datatype Response = Response(status: int, success: bool, data: Option<Payload>,
                               message: Option<string>, error: Option<string>)

  function Success(status: int, data: Option<Payload>): Response {
    Response(status, true, data, None, None)
  }

  /** `res.status(status).json({ success: false, error })` */
  function ErrorReply(status: int, error: string): Response {
    Response(status, false, None, None, Some(error))
  }

  /** `res.status(status).json({ success: false, message })` */
  function MessageReply(status: int, message: string): Response {
    Response(status, false, None, Some(message), None)
  }
}
