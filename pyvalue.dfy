/** Python values as they occur in an annotation payload and in table cells,
    together with the handful of Python operations the store applies to them
    (subscripting, iteration, `set(...)`, `in`, `str.split`, `str.join`, `str(...)`).
    Each operation that can raise in Python returns a `Result`. */
module PyValues {

  /** A JSON-like value: what the web layer hands over and what a cell holds. */
  datatype Value =
    | Null
    | Int(i: int)
    | Str(s: string)
    | List(items: seq<Value>)
    | Dict(fields: map<string, Value>)

  /** The Python exception a failing operation raises. `NotModelled` stands for an
      operation Python would carry out but that this model does not follow
      (iterating over a dictionary's keys, `str` of a list or a dictionary). */
  datatype PyError = KeyError | TypeError | IndexError | AttributeError | NotModelled

  datatype Result<T> = Ok(value: T) | Err(error: PyError)

  datatype Option<T> = None | Some(value: T)

  /** `d[key]` on a dictionary. */
  function Lookup(d: map<string, Value>, key: string): Result<Value>
  {
    if key in d then Ok(d[key]) else Err(KeyError)
  }

  /** `v[key]` with a string key: only a dictionary holding the key answers;
      a list, a string, a number or None raises a TypeError. */
  function Subscript(v: Value, key: string): (r: Result<Value>)
    ensures r.Ok? <==> v.Dict? && key in v.fields
    ensures r.Ok? ==> r.value == v.fields[key]
    ensures !v.Dict? ==> r == Err(TypeError)
  {
    match v
    case Dict(m) => Lookup(m, key)
    case _ => Err(TypeError)
  }

  /** `v[0]`: the first character of a string, the first item of a list. */
  function First(v: Value): (r: Result<Value>)
    ensures r.Ok? <==> (v.Str? && |v.s| > 0) || (v.List? && |v.items| > 0)
    ensures v.List? && r.Ok? ==> r.value == v.items[0]
  {
    match v
    case Str(s) => if |s| > 0 then Ok(Str([s[0]])) else Err(IndexError)
    case List(xs) => if |xs| > 0 then Ok(xs[0]) else Err(IndexError)
    case Dict(_) => Err(KeyError)
    case _ => Err(TypeError)
  }

  /** The one-character strings a Python string iterates over. */
  function Chars(s: string): (r: seq<Value>)
    ensures |r| == |s| && forall i :: 0 <= i < |s| ==> r[i] == Str([s[i]])
  {
    seq(|s|, i requires 0 <= i < |s| => Str([s[i]]))
  }

  /** `for x in v`: a list gives its items, a string its characters, a
      number or None raises. */
  function Iterate(v: Value): (r: Result<seq<Value>>)
    ensures r.Ok? <==> v.List? || v.Str?
    ensures v.List? ==> r == Ok(v.items)
    ensures v.Str? ==> r.Ok? && |r.value| == |v.s| && forall i :: 0 <= i < |v.s| ==> r.value[i] == Str([v.s[i]])
    ensures v.Int? || v.Null? ==> r == Err(TypeError)
  {
    match v
    case List(xs) => Ok(xs)
    case Str(s) => Ok(Chars(s))
    case Dict(_) => Err(NotModelled)
    case _ => Err(TypeError)
  }

  /** `set(v)`: for a string this is the set of its characters, not a singleton. */
  function ToSet(v: Value): (r: Result<set<Value>>)
    ensures v.Str? ==> r == Ok(set c | c in v.s :: Str([c]))
    ensures v.List? ==> r == Ok(set x | x in v.items)
    ensures r.Err? <==> v.Int? || v.Null?
  {
    match v
    case Str(s) => Ok(set c | c in s :: Str([c]))
    case List(xs) => Ok(set x | x in xs)
    case Dict(m) => Ok(set k | k in m :: Str(k))
    case _ => Err(TypeError)
  }

  /** `sep in v` for a one-character string `sep`. */
  function ContainsSeparator(v: Value, sep: char): Result<bool>
  {
    match v
    case Str(s) => Ok(sep in s)
    case List(xs) => Ok(Str([sep]) in xs)
    case Dict(m) => Ok([sep] in m)
    case _ => Err(TypeError)
  }

  /** The strings held by a sequence of string values. */
  function Strings(xs: seq<Value>): (r: seq<string>)
    requires forall i :: 0 <= i < |xs| ==> xs[i].Str?
    ensures |r| == |xs| && forall i :: 0 <= i < |xs| ==> Str(r[i]) == xs[i]
  {
    seq(|xs|, i requires 0 <= i < |xs| => xs[i].s)
  }

  /** The string values of a sequence of strings. */
  function StrValues(ss: seq<string>): (r: seq<Value>)
    ensures |r| == |ss| && forall i :: 0 <= i < |ss| ==> r[i] == Str(ss[i])
  {
    seq(|ss|, i requires 0 <= i < |ss| => Str(ss[i]))
  }

  /** `sep.join(parts)`. */
  function Join(sep: string, parts: seq<string>): string
  {
    if |parts| == 0 then ""
    else if |parts| == 1 then parts[0]
    else parts[0] + sep + Join(sep, parts[1..])
  }

  /** `s.split(sep)` for a one-character separator: every occurrence cuts,
      so the result is never empty and its pieces never hold `sep`. */
  function Split(s: string, sep: char): (r: seq<string>)
    ensures |r| >= 1
    ensures forall i :: 0 <= i < |r| ==> sep !in r[i]
  {
    if |s| == 0 then [""]
    else if s[0] == sep then [""] + Split(s[1..], sep)
    else
      var rest := Split(s[1..], sep);
      [[s[0]] + rest[0]] + rest[1..]
  }

  /** `sep.join(v)`: `v` is iterated and every item must be a string. */
  function JoinValue(sep: string, v: Value): (r: Result<string>)
    ensures v.List? && (forall i :: 0 <= i < |v.items| ==> v.items[i].Str?) ==>
              r == Ok(Join(sep, Strings(v.items)))
    ensures v.Int? || v.Null? ==> r.Err?
  {
    match Iterate(v)
    case Err(e) => Err(e)
    case Ok(xs) =>
      if forall i :: 0 <= i < |xs| ==> xs[i].Str? then Ok(Join(sep, Strings(xs)))
      else Err(TypeError)
  }

  function DigitChar(d: nat): (c: char)
    requires d < 10
    ensures '0' <= c <= '9' && c as int - '0' as int == d
  {
    "0123456789"[d]
  }

  /** The decimal digits of a natural number, most significant first. */
  function Digits(n: nat): (r: string)
    ensures |r| >= 1 && forall i :: 0 <= i < |r| ==> '0' <= r[i] <= '9'
    ensures r[0] == '0' <==> n == 0
    ensures n == 0 ==> |r| == 1
  {
    if n < 10 then [DigitChar(n)] else Digits(n / 10) + [DigitChar(n % 10)]
  }

  /** `str(n)` for an integer. */
  function Decimal(n: int): (r: string)
    ensures |r| >= 1
    ensures forall i :: 0 <= i < |r| ==> r[i] == '-' || '0' <= r[i] <= '9'
    ensures r[0] == '-' <==> n < 0
    ensures forall i :: 0 < i < |r| ==> r[i] != '-'
    ensures |r| > 1 ==> r[if n < 0 then 1 else 0] != '0'
  {
    if n < 0 then "-" + Digits(-n) else Digits(n)
  }

  /** The number a string of decimal digits denotes, most significant first. */
  function DigitsValue(s: string): (r: nat)
    requires forall i :: 0 <= i < |s| ==> '0' <= s[i] <= '9'
  {
    if |s| == 0 then 0 else DigitsValue(s[..|s| - 1]) * 10 + (s[|s| - 1] as int - '0' as int)
  }

  /** Reading the digits of `n` back gives `n`. */
  lemma {:induction false} DigitsRoundTrip(n: nat)
    ensures DigitsValue(Digits(n)) == n
  {
    if n >= 10 {
      DigitsRoundTrip(n / 10);
      var r := Digits(n);
      assert r[..|r| - 1] == Digits(n / 10);
    }
  }

  /** `int(str(n)) == n`: the text of an integer is its sign, then the digits
      of its magnitude. */
  lemma DecimalRoundTrip(n: int)
    ensures Decimal(n)[0] == '-' ==> DigitsValue(Decimal(n)[1..]) == -n
    ensures Decimal(n)[0] != '-' ==> DigitsValue(Decimal(n)) == n
  {
    if n < 0 {
      DigitsRoundTrip(-n);
      assert Decimal(n)[1..] == Digits(-n);
    } else {
      DigitsRoundTrip(n);
    }
  }

  /** `str(v)` for the values a coordinate can be. */
  function ToStr(v: Value): (r: Result<string>)
    ensures r.Ok? <==> v.Int? || v.Str? || v.Null?
    ensures v.Int? ==> r == Ok(Decimal(v.i))
    ensures v.Str? ==> r == Ok(v.s)
    ensures v.Null? ==> r == Ok("None")
  {
    match v
    case Int(n) => Ok(Decimal(n))
    case Str(s) => Ok(s)
    case Null => Ok("None")
    case _ => Err(NotModelled)
  }

  /** Joining the pieces of a split gives the string back. */
  lemma {:induction false} JoinSplit(s: string, sep: char)
    ensures Join([sep], Split(s, sep)) == s
  {
    if |s| == 0 {
    } else if s[0] == sep {
      JoinSplit(s[1..], sep);
      assert s == [sep] + s[1..];
    } else {
      var rest := Split(s[1..], sep);
      JoinSplit(s[1..], sep);
      if |rest| == 1 {
        assert s == [s[0]] + s[1..];
      } else {
        assert Join([sep], rest) == rest[0] + [sep] + Join([sep], rest[1..]);
        var r := [[s[0]] + rest[0]] + rest[1..];
        assert r[1..] == rest[1..];
        assert s == [s[0]] + s[1..];
      }
    }
  }

  /** A string without the separator splits into itself. */
  lemma {:induction false} SplitPlain(a: string, sep: char)
    requires sep !in a
    ensures Split(a, sep) == [a]
  {
    if |a| > 0 {
      SplitPlain(a[1..], sep);
      assert [a[0]] + a[1..] == a;
    }
  }

  /** Splitting `a + sep + b` when `a` holds no separator cuts exactly after `a`. */
  lemma {:induction false} SplitAfterPlain(a: string, b: string, sep: char)
    requires sep !in a
    ensures Split(a + [sep] + b, sep) == [a] + Split(b, sep)
  {
    if |a| == 0 {
      assert a + [sep] + b == [sep] + b;
      assert ([sep] + b)[1..] == b;
    } else {
      var s := a + [sep] + b;
      assert s[0] == a[0];
      assert s[1..] == a[1..] + [sep] + b;
      SplitAfterPlain(a[1..], b, sep);
      assert [a[0]] + a[1..] == a;
    }
  }

  /** Splitting a join gives the parts back, when no part holds the separator. */
  lemma {:induction false} SplitJoin(parts: seq<string>, sep: char)
    requires |parts| >= 1
    requires forall i :: 0 <= i < |parts| ==> sep !in parts[i]
    ensures Split(Join([sep], parts), sep) == parts
  {
    if |parts| == 1 {
      SplitPlain(parts[0], sep);
    } else {
      SplitJoin(parts[1..], sep);
      SplitAfterPlain(parts[0], Join([sep], parts[1..]), sep);
      assert [parts[0]] + parts[1..] == parts;
    }
  }
}
