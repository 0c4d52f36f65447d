/**
 * JSON values as `json.load` returns them, with the two pieces of Python
 * behaviour the pipeline relies on: looking a key up in a dict and `str()`
 * of a scalar.
 */
module Json {
  import opened Text

  /** An object keeps its entries in insertion order. The type does not
      force distinct keys: a dict from `json.load` has one entry per key,
      and for such an object `Get` and the walks over every entry agree.
      A float keeps the text `repr` gives for it. */
  datatype Value =
    | Null
    | Bool(b: bool)
    | Int(i: int)
    | Float(repr: string)
    | Str(s: string)
    | Arr(items: seq<Value>)
    | Obj(entries: seq<(string, Value)>)

  predicate HasKey(entries: seq<(string, Value)>, key: string) {
    exists k :: 0 <= k < |entries| && entries[k].0 == key
  }

  /** `d[key]` when `key in d`. */
  function Get(entries: seq<(string, Value)>, key: string): (v: Option<Value>)
    ensures v != None <==> HasKey(entries, key)
    ensures v != None ==> exists k :: 0 <= k < |entries| && entries[k] == (key, v.value)
  {
    if |entries| == 0 then None
    else if entries[0].0 == key then Some(entries[0].1)
    else
      var rest := Get(entries[1..], key);
      assert HasKey(entries[1..], key) ==> HasKey(entries, key) by {
        if HasKey(entries[1..], key) {
          var k :| 0 <= k < |entries| - 1 && entries[1..][k].0 == key;
          assert entries[k + 1].0 == key;
        }
      }
      assert rest != None ==> exists k :: 0 <= k < |entries| && entries[k] == (key, rest.value) by {
        if rest != None {
          var k :| 0 <= k < |entries| - 1 && entries[1..][k] == (key, rest.value);
          assert entries[k + 1] == (key, rest.value);
        }
      }
      rest
  }

  function DigitChar(d: nat): char
    requires d < 10
  {
    "0123456789"[d]
  }

  /** The number a string of decimal digits denotes. */
  function DigitsValue(s: string): nat
    requires AllDigits(s)
  {
    if |s| == 0 then 0 else 10 * DigitsValue(s[..|s| - 1]) + (s[|s| - 1] as int - '0' as int)
  }

  /** `str(n)` for a natural number: decimal digits, no leading zero. */
  function NatToString(n: nat): (s: string)
    ensures |s| > 0 && AllDigits(s)
    ensures s[0] == '0' ==> n == 0 && s == "0"
  {
    if n < 10 then [DigitChar(n)] else NatToString(n / 10) + [DigitChar(n % 10)]
  }

  lemma {:induction false} NatToStringValue(n: nat)
    ensures DigitsValue(NatToString(n)) == n
  {
    var s := NatToString(n);
    if n >= 10 {
      NatToStringValue(n / 10);
      assert s[..|s| - 1] == NatToString(n / 10);
    }
  }

  /** `str(i)` for an integer. */
  function IntToString(i: int): (s: string)
    ensures |s| > 0
    ensures i < 0 <==> s[0] == '-'
    ensures AllDigits(if i < 0 then s[1..] else s)
  {
    if i < 0 then "-" + NatToString(-i) else NatToString(i)
  }

  /** `str(v)` for a value that is neither a list nor a dict. */
  function ScalarStr(v: Value): string
    requires !v.Arr? && !v.Obj?
  {
    match v
    case Null => "None"
    case Bool(b) => if b then "True" else "False"
    case Int(i) => IntToString(i)
    case Float(r) => r
    case Str(s) => s
  }
}
