/** The decoded JSON records the CrossRef formatters receive (the result of
    `res.json()`), and the part of Python's semantics the formatters apply to
    them: `dict.get`, truthiness, `v[0]`, iteration, `str(v)` and `repr(v)`,
    and the exceptions those raise on values of the wrong shape. */
module PyJson {
  import opened Wrappers
  import opened Strings

  /** The exceptions a formatter can raise on a record of the wrong shape. */
  datatype PyError = AttributeError | IndexError | KeyError | TypeError

  /** A JSON value as `json.loads` returns it; an object keeps its keys in
      document order (`DistinctKeys` states that no key repeats). */
  datatype Value =
    | Null
    | Bool(b: bool)
    | Int(i: int)
    | Str(s: string)
    | Arr(items: seq<Value>)
    | Obj(fields: seq<(string, Value)>)

  /** The fields of a JSON object, in document order. */
  type Object = seq<(string, Value)>

  /** `d.get(key)`: the value stored under the first field named `key`. */
  function Get(obj: Object, key: string): (r: Option<Value>)
    ensures r.None? <==> forall i :: 0 <= i < |obj| ==> obj[i].0 != key
    ensures r.Some? ==> exists i :: 0 <= i < |obj| && obj[i] == (key, r.value)
                          && forall j :: 0 <= j < i ==> obj[j].0 != key
    decreases |obj|
  {
    if |obj| == 0 then None
    else if obj[0].0 == key then Some(obj[0].1)
    else
      var r := Get(obj[1..], key);
      assert r.Some? ==> exists i :: 0 <= i < |obj[1..]| && obj[1..][i] == (key, r.value)
                          && forall j :: 0 <= j < i ==> obj[1..][j].0 != key;
      assert r.Some? ==> exists i :: 1 <= i < |obj| && obj[i] == (key, r.value)
                          && forall j :: 0 <= j < i ==> obj[j].0 != key by {
        if r.Some? {
          var i :| 0 <= i < |obj[1..]| && obj[1..][i] == (key, r.value)
                    && forall j :: 0 <= j < i ==> obj[1..][j].0 != key;
          assert obj[i + 1] == (key, r.value);
          assert forall j :: 1 <= j < i + 1 ==> obj[j].0 == obj[1..][j - 1].0;
        }
      }
      r
  }

  /** `d.get(key, default)`. */
  function GetOr(obj: Object, key: string, default: Value): Value {
    Get(obj, key).GetOr(default)
  }

  /** The fields a `.get` call reads: only a dict has `.get`, and calling it
      on any other value raises AttributeError. */
  function Fields(v: Value): Result<Object, PyError> {
    if v.Obj? then Ok(v.fields) else Err(AttributeError)
  }

  /** The objects `json.loads` can produce: no key occurs twice. */
  predicate DistinctKeys(obj: Object) {
    forall i, j :: 0 <= i < j < |obj| ==> obj[i].0 != obj[j].0
  }

  /** On such an object the field `Get` finds is the only one with its key,
      so taking the first match agrees with `json.loads` keeping the last. */
  lemma GetUnique(obj: Object, key: string)
    requires DistinctKeys(obj)
    ensures Get(obj, key).Some? ==>
              forall i :: 0 <= i < |obj| && obj[i].0 == key ==> obj[i].1 == Get(obj, key).value
  {
  }

  /** Python truthiness: `None`, `False`, `0` and empty strings, lists and
      dicts are false. */
  predicate Truthy(v: Value) {
    match v
    case Null => false
    case Bool(b) => b
    case Int(i) => i != 0
    case Str(s) => s != ""
    case Arr(items) => items != []
    case Obj(fields) => fields != []
  }

  /** Truthiness of `d.get(key)`, where a missing key gives the false `None`. */
  predicate TruthyOpt(o: Option<Value>) {
    o.Some? && Truthy(o.value)
  }

  /** Python's `a or b or c or default` where `a`, `b`, `c` are `d.get(key)`
      lookups: the first truthy operand, or `default` when none is. */
  function FirstTruthy(vs: seq<Option<Value>>, default: Value): (r: Value)
    ensures (forall i :: 0 <= i < |vs| ==> !TruthyOpt(vs[i])) ==> r == default
    ensures (exists i :: 0 <= i < |vs| && TruthyOpt(vs[i])) ==>
              exists i :: 0 <= i < |vs| && TruthyOpt(vs[i]) && r == vs[i].value
                          && forall j :: 0 <= j < i ==> !TruthyOpt(vs[j])
    decreases |vs|
  {
    if |vs| == 0 then default
    else if TruthyOpt(vs[0]) then vs[0].value
    else
      var r := FirstTruthy(vs[1..], default);
      assert (exists i :: 0 <= i < |vs| && TruthyOpt(vs[i])) ==>
               exists i :: 0 <= i < |vs| && TruthyOpt(vs[i]) && r == vs[i].value
                           && forall j :: 0 <= j < i ==> !TruthyOpt(vs[j]) by {
        if exists i :: 0 <= i < |vs| && TruthyOpt(vs[i]) {
          var i0 :| 0 <= i0 < |vs| && TruthyOpt(vs[i0]);
          assert TruthyOpt(vs[1..][i0 - 1]);
          var i :| 0 <= i < |vs[1..]| && TruthyOpt(vs[1..][i]) && r == vs[1..][i].value
                    && forall j :: 0 <= j < i ==> !TruthyOpt(vs[1..][j]);
          assert TruthyOpt(vs[i + 1]) && r == vs[i + 1].value;
          assert forall j :: 1 <= j < i + 1 ==> vs[j] == vs[1..][j - 1];
        }
      }
      r
  }

  /** `for x in v`: a list gives its items, a string its characters, a dict
      its keys; `None`, booleans and numbers are not iterable. */
  function Iterate(v: Value): (r: Result<seq<Value>, PyError>)
    ensures r.Err? <==> v.Null? || v.Bool? || v.Int?
    ensures r.Err? ==> r.error == TypeError
    ensures r.Ok? ==> (|r.value| == 0 <==> !Truthy(v))
    ensures v.Arr? ==> r == Ok(v.items)
    ensures v.Str? ==> r.Ok? && |r.value| == |v.s|
                       && forall k :: 0 <= k < |v.s| ==> r.value[k] == Str([v.s[k]])
    ensures v.Obj? ==> r.Ok? && |r.value| == |v.fields|
                       && forall k :: 0 <= k < |v.fields| ==> r.value[k] == Str(v.fields[k].0)
  {
    match v
    case Arr(items) => Ok(items)
    case Str(s) => Ok(seq(|s|, k requires 0 <= k < |s| => Str([s[k]])))
    case Obj(fields) => Ok(seq(|fields|, k requires 0 <= k < |fields| => Str(fields[k].0)))
    case _ => Err(TypeError)
  }

  /** `v[0]`: the first element of a non-empty list or string. An empty
      list or string raises IndexError, a dict KeyError (its keys are
      strings, never the integer 0), anything else TypeError. */
  function Subscript0(v: Value): (r: Result<Value, PyError>)
    ensures r.Ok? <==> (v.Arr? || v.Str?) && Truthy(v)
    ensures r.Ok? ==> Iterate(v).Ok? && r.value == Iterate(v).value[0]
    ensures r.Err? ==> r.error == (if v.Arr? || v.Str? then IndexError
                                   else if v.Obj? then KeyError else TypeError)
  {
    match v
    case Arr(items) => if |items| == 0 then Err(IndexError) else Ok(items[0])
    case Str(s) => if |s| == 0 then Err(IndexError) else Ok(Str([s[0]]))
    case Obj(_) => Err(KeyError)
    case _ => Err(TypeError)
  }

  // ---------- str() of integers ----------

  predicate IsDigit(c: char) {
    '0' <= c <= '9'
  }

  function DigitChar(d: nat): (c: char)
    requires d < 10
    ensures IsDigit(c) && c as int - '0' as int == d
  {
    ('0' as int + d) as char
  }

  /** Decimal digits of `n`, without leading zeros. */
  function NatToString(n: nat): (r: string)
    ensures |r| >= 1
    ensures forall k :: 0 <= k < |r| ==> IsDigit(r[k])
    ensures |r| > 1 ==> r[0] != '0'
    decreases n
  {
    if n < 10 then [DigitChar(n)] else NatToString(n / 10) + [DigitChar(n % 10)]
  }

  /** The number a string of decimal digits denotes. */
  function ParseDigits(s: string): nat
    requires forall k :: 0 <= k < |s| ==> IsDigit(s[k])
    decreases |s|
  {
    if |s| == 0 then 0
    else
      assert IsDigit(s[|s| - 1]);
      ParseDigits(s[..|s| - 1]) * 10 + (s[|s| - 1] as int - '0' as int)
  }

  /** Reading the digits back gives the number. */
  lemma {:induction false} NatToStringParse(n: nat)
    ensures ParseDigits(NatToString(n)) == n
    decreases n
  {
    var r := NatToString(n);
    if n >= 10 {
      NatToStringParse(n / 10);
      assert r[..|r| - 1] == NatToString(n / 10);
    }
  }

  /** `str(i)` for an integer: a minus sign before the digits of a negative number. */
  function IntToString(i: int): string {
    if i < 0 then "-" + NatToString(-i) else NatToString(i)
  }

  // ---------- repr() of strings ----------

  function HexDigit(d: nat): (c: char)
    requires d < 16
  {
    if d < 10 then DigitChar(d) else ('a' as int + d - 10) as char
  }

  function HexValue(c: char): nat {
    if '0' <= c <= '9' then c as int - '0' as int
    else if 'a' <= c <= 'f' then c as int - 'a' as int + 10
    else 0
  }

  /** Characters up to U+00FF that `str.isprintable` rejects and `repr`
      shows as `\xNN`. */
  predicate NeedsHexEscape(c: char) {
    c < ' ' || ('\U{7F}' <= c <= '\U{A0}') || c == '\U{AD}'
  }

  /** How `repr` writes one character of a string quoted with `q`. */
  function EscapeChar(c: char, q: char): string {
    if c == '\\' then "\\\\"
    else if c == q then ['\\', q]
    else if c == '\t' then "\\t"
    else if c == '\n' then "\\n"
    else if c == '\r' then "\\r"
    else if NeedsHexEscape(c) then "\\x" + [HexDigit(c as int / 16), HexDigit(c as int % 16)]
    else [c]
  }

  function Escape(s: string, q: char): string
    decreases |s|
  {
    if |s| == 0 then "" else EscapeChar(s[0], q) + Escape(s[1..], q)
  }

  /** The quote `repr` picks: a double quote only when the text holds a
      single quote and no double quote. */
  function QuoteFor(s: string): char {
    if '\'' in s && '"' !in s then '"' else '\''
  }

  /** `repr(s)` for a string. */
  function QuoteString(s: string): (r: string)
    ensures |r| >= 2 && r[0] == r[|r| - 1] == QuoteFor(s)
  {
    var q := QuoteFor(s);
    [q] + Escape(s, q) + [q]
  }

  /** Reads one escaped text back: the inverse of `Escape`. */
  function Unescape(t: string, q: char): string
    decreases |t|
  {
    if |t| == 0 then ""
    else if t[0] == '\\' && |t| >= 2 && (t[1] == '\\' || t[1] == q) then [t[1]] + Unescape(t[2..], q)
    else if t[0] == '\\' && |t| >= 2 && t[1] == 't' then "\t" + Unescape(t[2..], q)
    else if t[0] == '\\' && |t| >= 2 && t[1] == 'n' then "\n" + Unescape(t[2..], q)
    else if t[0] == '\\' && |t| >= 2 && t[1] == 'r' then "\r" + Unescape(t[2..], q)
    else if t[0] == '\\' && |t| >= 4 && t[1] == 'x' then
      [(HexValue(t[2]) * 16 + HexValue(t[3])) as char] + Unescape(t[4..], q)
    else [t[0]] + Unescape(t[1..], q)
  }

  lemma HexRoundTrip(n: nat)
    requires n < 256
    ensures HexValue(HexDigit(n / 16)) * 16 + HexValue(HexDigit(n % 16)) == n
  {
  }

  /** Unescaping one escaped character followed by more text. */
  lemma UnescapeChar(c: char, q: char, rest: string)
    requires q == '\'' || q == '"'
    ensures Unescape(EscapeChar(c, q) + rest, q) == [c] + Unescape(rest, q)
  {
    var t := EscapeChar(c, q) + rest;
    if c == '\\' || c == q {
      assert t[2..] == rest;
    } else if c == '\t' || c == '\n' || c == '\r' {
      assert t[2..] == rest;
    } else if NeedsHexEscape(c) {
      HexRoundTrip(c as int);
      assert t[4..] == rest;
      assert t[2] == HexDigit(c as int / 16) && t[3] == HexDigit(c as int % 16);
    } else {
      assert t[1..] == rest;
    }
  }

  /** `repr` of a string can be read back: escaping loses nothing. */
  lemma {:induction false} UnescapeEscape(s: string, q: char)
    requires q == '\'' || q == '"'
    ensures Unescape(Escape(s, q), q) == s
    decreases |s|
  {
    if |s| > 0 {
      UnescapeEscape(s[1..], q);
      UnescapeChar(s[0], q, Escape(s[1..], q));
    }
  }

  // ---------- str() and repr() of values ----------

  /** `repr(v)`: strings quoted and escaped, lists and dicts written as
      Python literals with `, ` between elements. */
  function Repr(v: Value): string
    decreases v
  {
    match v
    case Null => "None"
    case Bool(b) => if b then "True" else "False"
    case Int(i) => IntToString(i)
    case Str(s) => QuoteString(s)
    case Arr(items) =>
      "[" + Join(seq(|items|, k requires 0 <= k < |items| => Repr(items[k])), ", ") + "]"
    case Obj(fields) =>
      "{" + Join(seq(|fields|, k requires 0 <= k < |fields| =>
                    QuoteString(fields[k].0) + ": " + Repr(fields[k].1)), ", ") + "}"
  }

  /** `str(v)`, which is what an f-string interpolates: a string as it is,
      everything else as its `repr`. */
  function PyStr(v: Value): string {
    match v
    case Str(s) => s
    case _ => Repr(v)
  }

  /** `str` of a JSON integer is its decimal numeral, and reading it back
      gives the integer. */
  lemma IntStrRoundTrip(i: int)
    ensures i >= 0 ==> ParseDigits(PyStr(Int(i))) == i
    ensures i < 0 ==> PyStr(Int(i))[0] == '-' && ParseDigits(PyStr(Int(i))[1..]) == -i
  {
    if i >= 0 {
      NatToStringParse(i);
    } else {
      NatToStringParse(-i);
      assert PyStr(Int(i))[1..] == NatToString(-i);
    }
  }

  /** `str` of a JSON string that sits inside a list is its `repr`, which
      can be read back to the string. */
  lemma NestedStrRoundTrip(s: string)
    ensures var r := Repr(Str(s)); Unescape(r[1..|r| - 1], r[0]) == s
  {
    var r := Repr(Str(s));
    assert r[1..|r| - 1] == Escape(s, QuoteFor(s));
    UnescapeEscape(s, QuoteFor(s));
  }

  /** `f"{d.get(key, default)}"` for a string default. */
  function Shown(obj: Object, key: string, default: string): string {
    PyStr(GetOr(obj, key, Str(default)))
  }

  /** A missing field shows its default, a string field shows verbatim, an
      integer in decimal and JSON null as "None". */
  lemma ShownCases(obj: Object, key: string, default: string)
    ensures Get(obj, key).None? ==> Shown(obj, key, default) == default
    ensures forall s :: Get(obj, key) == Some(Str(s)) ==> Shown(obj, key, default) == s
    ensures forall n :: Get(obj, key) == Some(Int(n)) ==> Shown(obj, key, default) == IntToString(n)
    ensures Get(obj, key) == Some(Null) ==> Shown(obj, key, default) == "None"
  {
  }
}
