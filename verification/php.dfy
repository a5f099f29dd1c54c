/**
 The small part of PHP's value semantics that the form-note advisor and the
 TypoScript utility rely on: `empty()`, `isset()`, the `(int)` cast, the
 string form used by `array_unique`, `array_unique` itself, and
 `explode`/`trim` as combined by TYPO3's `GeneralUtility::trimExplode`.
 */
module Php {

  /** A scalar cell of a PHP array, as the database layer returns it. */
  datatype Value = Null | Int(n: int) | Str(s: string)

  /** A database row or a PHP array of scalars: column name to value. */
  type Row = map<string, Value>

  /** `$row[$key]`: a missing key reads as null. */
  function Get(row: Row, key: string): Value
  {
    if key in row then row[key] else Null
  }

  /** `isset($row[$key])`: present and not null. */
  predicate IsSet(row: Row, key: string)
  {
    key in row && row[key] != Null
  }

  /** `empty($v)` for a scalar: null, 0, "" and "0" are empty. */
  predicate IsEmpty(v: Value)
  {
    v == Null || v == Int(0) || v == Str("") || v == Str("0")
  }

  /** `empty($s)` for a string, i.e. the string is falsy. */
  predicate IsEmptyString(s: string)
  {
    s == "" || s == "0"
  }

  predicate IsDigit(c: char)
  {
    '0' <= c <= '9'
  }

  predicate AllDigits(s: string)
  {
    forall k :: 0 <= k < |s| ==> IsDigit(s[k])
  }

  /** Whitespace skipped by PHP before the digits of an integer string. */
  predicate IsNumericSpace(c: char)
  {
    c == ' ' || c == '\t' || c == '\n' || c == '\r' || c == '\U{B}' || c == '\U{C}'
  }

  function DigitChar(d: nat): (c: char)
    requires d < 10
    ensures IsDigit(c)
  {
    (('0' as int) + d) as char
  }

  function DigitValue(c: char): nat
    requires IsDigit(c)
  {
    (c as int) - ('0' as int)
  }

  /** The maximal prefix of `s` made of decimal digits. */
  function LeadingDigits(s: string): (r: string)
    ensures AllDigits(r)
    ensures |r| <= |s| && r == s[..|r|]
    ensures |r| < |s| ==> !IsDigit(s[|r|])
  {
    if |s| == 0 || !IsDigit(s[0]) then "" else [s[0]] + LeadingDigits(s[1..])
  }

  /** The number a string of decimal digits denotes (most significant first). */
  function DigitsValue(ds: string): nat
    requires AllDigits(ds)
  {
    if |ds| == 0 then 0
    else 10 * DigitsValue(ds[..|ds| - 1]) + DigitValue(ds[|ds| - 1])
  }

  function SkipNumericSpace(s: string): (r: string)
    ensures |r| <= |s| && r == s[|s| - |r|..]
    ensures |r| > 0 ==> !IsNumericSpace(r[0])
  {
    if |s| > 0 && IsNumericSpace(s[0]) then SkipNumericSpace(s[1..]) else s
  }

  /** The signed value of the optional sign and digit prefix of `t`. */
  function SignedPrefixValue(t: string): int
  {
    if |t| > 0 && t[0] == '-' then -(DigitsValue(LeadingDigits(t[1..])) as int)
    else if |t| > 0 && t[0] == '+' then DigitsValue(LeadingDigits(t[1..]))
    else DigitsValue(LeadingDigits(t))
  }

  /**
   `(int)$v`: null is 0, an integer is itself, a string is read as
   optional whitespace, an optional sign and a decimal digit prefix; a
   string without such a prefix is 0.
   */
  function IntCast(v: Value): int
  {
    match v
    case Null => 0
    case Int(n) => n
    case Str(s) => SignedPrefixValue(SkipNumericSpace(s))
  }

  /** A string of digits casts to the number it denotes. */
  lemma IntCastOfDigits(s: string)
    requires AllDigits(s)
    ensures IntCast(Str(s)) == DigitsValue(s)
  {
    NoSpaceBeforeDigit(s);
    LeadingDigitsOfDigits(s);
    if |s| > 0 {
      assert s[0] != '-' && s[0] != '+';
    }
  }

  /** A string starting with a digit (or empty) has no whitespace to skip. */
  lemma NoSpaceBeforeDigit(s: string)
    requires |s| == 0 || IsDigit(s[0])
    ensures SkipNumericSpace(s) == s
  {
    if |s| > 0 {
      assert !IsNumericSpace(s[0]);
    }
  }

  lemma {:induction false} LeadingDigitsOfDigits(s: string)
    ensures AllDigits(s) ==> LeadingDigits(s) == s
    decreases |s|
  {
    if |s| > 0 && AllDigits(s) {
      assert AllDigits(s[1..]);
      LeadingDigitsOfDigits(s[1..]);
    }
  }

  /** Decimal notation of a natural number, without leading zeros. */
  function NatToString(n: nat): (r: string)
    ensures |r| > 0 && AllDigits(r)
    decreases n
  {
    if n < 10 then [DigitChar(n)] else NatToString(n / 10) + [DigitChar(n % 10)]
  }

  function IntToString(n: int): string
  {
    if n < 0 then "-" + NatToString(-n) else NatToString(n)
  }

  /** `(string)$v`, the key `array_unique` compares values by. */
  function StringForm(v: Value): string
  {
    match v
    case Null => ""
    case Int(n) => IntToString(n)
    case Str(s) => s
  }

  lemma {:induction false} DigitsValueOfNatToString(n: nat)
    ensures DigitsValue(NatToString(n)) == n
    decreases n
  {
    if n >= 10 {
      var ds := NatToString(n);
      assert ds[..|ds| - 1] == NatToString(n / 10);
      DigitsValueOfNatToString(n / 10);
    }
  }

  /** Casting the string form of an integer back with `(int)` gives the integer. */
  lemma IntCastOfStringForm(n: int)
    ensures IntCast(Str(StringForm(Int(n)))) == n
  {
    var s := IntToString(n);
    var digits := NatToString(if n < 0 then -n else n);
    DigitsValueOfNatToString(if n < 0 then -n else n);
    if n < 0 {
      LeadingDigitsOfDigits(digits);
      assert s[0] == '-' && s[1..] == digits;
      assert SkipNumericSpace(s) == s;
    } else {
      IntCastOfDigits(digits);
    }
  }

  /** Every value `empty()` calls empty casts to 0. */
  lemma IntCastOfEmpty(v: Value)
    requires IsEmpty(v)
    ensures IntCast(v) == 0
  {
    if v == Str("0") {
      IntCastOfDigits("0");
      assert DigitsValue("0") == 0 by {
        assert ("0")[..0] == "";
      }
    } else if v == Str("") {
      IntCastOfDigits("");
    }
  }

  /** `(int)` ignores leading whitespace: `(int)" 1"` is `(int)"1"`. */
  lemma IntCastSkipsSpace(w: string, s: string)
    requires forall k :: 0 <= k < |w| ==> IsNumericSpace(w[k])
    ensures IntCast(Str(w + s)) == IntCast(Str(s))
  {
    SkipSpacePrefix(w, s);
  }

  lemma {:induction false} SkipSpacePrefix(w: string, s: string)
    requires forall k :: 0 <= k < |w| ==> IsNumericSpace(w[k])
    ensures SkipNumericSpace(w + s) == SkipNumericSpace(s)
    decreases |w|
  {
    if |w| > 0 {
      assert (w + s)[0] == w[0];
      assert (w + s)[1..] == w[1..] + s;
      SkipSpacePrefix(w[1..], s);
    } else {
      assert w + s == s;
    }
  }

  lemma {:induction false} LeadingDigitsOfPrefix(ds: string, rest: string)
    requires AllDigits(ds)
    requires |rest| == 0 || !IsDigit(rest[0])
    ensures LeadingDigits(ds + rest) == ds
    decreases |ds|
  {
    if |ds| > 0 {
      assert (ds + rest)[1..] == ds[1..] + rest;
      LeadingDigitsOfPrefix(ds[1..], rest);
      assert [ds[0]] + ds[1..] == ds;
    } else {
      assert ds + rest == rest;
    }
  }

  /**
   `(int)` reads a leading run of digits and ignores what follows, when what
   follows cannot continue a number: `(int)"12ab"` is 12.
   */
  lemma IntCastReadsDigitPrefix(ds: string, rest: string)
    requires |ds| > 0 && AllDigits(ds)
    requires |rest| == 0 || !(IsDigit(rest[0]) || rest[0] == '.' || rest[0] == 'e' || rest[0] == 'E')
    ensures IntCast(Str(ds + rest)) == DigitsValue(ds)
  {
    LeadingDigitsOfPrefix(ds, rest);
    var t := ds + rest;
    assert t[0] == ds[0];
    NoSpaceBeforeDigit(t);
    assert t[0] != '-' && t[0] != '+';
  }

  /** A string that starts with neither whitespace, sign, digit nor decimal point casts to 0. */
  lemma IntCastWithoutDigits(s: string)
    requires |s| == 0 || !(IsNumericSpace(s[0]) || IsDigit(s[0]) || s[0] == '-' || s[0] == '+' || s[0] == '.')
    ensures IntCast(Str(s)) == 0
  {
    assert SkipNumericSpace(s) == s;
    assert LeadingDigits(s) == "";
  }

  /** The string forms of a list of values. */
  function Strings(vs: seq<Value>): (r: seq<string>)
    ensures |r| == |vs|
    ensures forall k :: 0 <= k < |vs| ==> r[k] == StringForm(vs[k])
  {
    seq(|vs|, k requires 0 <= k < |vs| => StringForm(vs[k]))
  }

  /** No two values of the list have the same string form. */
  predicate DistinctStrings(vs: seq<Value>)
  {
    forall i, j :: 0 <= i < j < |vs| ==> StringForm(vs[i]) != StringForm(vs[j])
  }

  /** The list `[$v0, $v1, ...]` as PHP key/value entries. */
  function Entries(vs: seq<Value>): (r: seq<(nat, Value)>)
    ensures |r| == |vs|
    ensures forall k :: 0 <= k < |vs| ==> r[k] == (k, vs[k])
  {
    seq(|vs|, k requires 0 <= k < |vs| => (k, vs[k]))
  }

  /** The value at key `k` is the first of its string form. */
  predicate FirstOfItsForm(vs: seq<Value>, k: nat)
    requires k < |vs|
  {
    StringForm(vs[k]) !in Strings(vs[..k])
  }

  /**
   `array_unique($vs)`: the entries of `$vs` whose string form has not
   occurred at a smaller key, each keeping its original key.
   */
  function ArrayUnique(vs: seq<Value>): (r: seq<(nat, Value)>)
    ensures UniqueEntriesOf(vs, r)
    ensures |r| <= |vs|
    ensures forall e :: e in r ==> e.0 < |vs| && vs[e.0] == e.1
    ensures forall i, j :: 0 <= i < j < |r| ==> r[i].0 < r[j].0
    ensures forall i, j :: 0 <= i < j < |r| ==> StringForm(r[i].1) != StringForm(r[j].1)
    ensures |r| == |vs| <==> DistinctStrings(vs)
    ensures forall k :: 0 <= k < |vs| ==> ((k, vs[k]) in r <==> FirstOfItsForm(vs, k))
  {
    if |vs| == 0 then []
    else
      var n := |vs| - 1;
      var p := ArrayUnique(vs[..n]);
      var r := if StringForm(vs[n]) in Strings(vs[..n]) then p else p + [(n, vs[n])];
      ArrayUniqueStep(vs, vs[..n], p, r);
      r
  }

  /** The facts `ArrayUnique` promises about its result `r` for the list `vs`. */
  predicate UniqueEntriesOf(vs: seq<Value>, r: seq<(nat, Value)>)
  {
    && |r| <= |vs|
    && (forall e :: e in r ==> e.0 < |vs| && vs[e.0] == e.1)
    && (forall i, j :: 0 <= i < j < |r| ==> r[i].0 < r[j].0)
    && (forall i, j :: 0 <= i < j < |r| ==> StringForm(r[i].1) != StringForm(r[j].1))
    && (|r| == |vs| <==> DistinctStrings(vs))
    && (forall k :: 0 <= k < |vs| ==> ((k, vs[k]) in r <==> FirstOfItsForm(vs, k)))
  }

  /** One step of `ArrayUnique`: the last value is kept iff it is the first of its string form. */
  lemma ArrayUniqueStep(vs: seq<Value>, q: seq<Value>, p: seq<(nat, Value)>, r: seq<(nat, Value)>)
    requires |vs| > 0 && q == vs[..|vs| - 1]
    requires UniqueEntriesOf(q, p)
    requires r == if StringForm(vs[|q|]) in Strings(q) then p else p + [(|q|, vs[|q|])]
    ensures UniqueEntriesOf(vs, r)
  {
    StepEntries(vs, q, p, r);
    StepForms(vs, q, p, r);
    StepLength(vs, q, p, r);
    StepFirst(vs, q, p, r);
  }

  lemma StepEntries(vs: seq<Value>, q: seq<Value>, p: seq<(nat, Value)>, r: seq<(nat, Value)>)
    requires |vs| > 0 && q == vs[..|vs| - 1]
    requires UniqueEntriesOf(q, p)
    requires r == if StringForm(vs[|q|]) in Strings(q) then p else p + [(|q|, vs[|q|])]
    ensures |r| <= |vs|
    ensures forall e :: e in r ==> e.0 < |vs| && vs[e.0] == e.1
    ensures forall i, j :: 0 <= i < j < |r| ==> r[i].0 < r[j].0
  {
    forall e | e in r
      ensures e.0 < |vs| && vs[e.0] == e.1
    {
      if e in p {
        assert q[e.0] == vs[e.0];
      }
    }
    forall i, j | 0 <= i < j < |r|
      ensures r[i].0 < r[j].0
    {
      if j < |p| {
        assert r[i] == p[i] && r[j] == p[j];
      } else {
        assert r[i] in p;
      }
    }
  }

  lemma StepForms(vs: seq<Value>, q: seq<Value>, p: seq<(nat, Value)>, r: seq<(nat, Value)>)
    requires |vs| > 0 && q == vs[..|vs| - 1]
    requires UniqueEntriesOf(q, p)
    requires r == if StringForm(vs[|q|]) in Strings(q) then p else p + [(|q|, vs[|q|])]
    ensures forall i, j :: 0 <= i < j < |r| ==> StringForm(r[i].1) != StringForm(r[j].1)
  {
    forall i, j | 0 <= i < j < |r|
      ensures StringForm(r[i].1) != StringForm(r[j].1)
    {
      if j < |p| {
        assert r[i] == p[i] && r[j] == p[j];
      } else {
        assert r[i] in p;
        assert Strings(q)[r[i].0] == StringForm(r[i].1);
      }
    }
  }

  lemma StepLength(vs: seq<Value>, q: seq<Value>, p: seq<(nat, Value)>, r: seq<(nat, Value)>)
    requires |vs| > 0 && q == vs[..|vs| - 1]
    requires UniqueEntriesOf(q, p)
    requires r == if StringForm(vs[|q|]) in Strings(q) then p else p + [(|q|, vs[|q|])]
    ensures |r| == |vs| <==> DistinctStrings(vs)
  {
    var n := |q|;
    if |r| == |vs| {
      assert |p| == |q| && StringForm(vs[n]) !in Strings(q);
      forall i, j | 0 <= i < j < |vs|
        ensures StringForm(vs[i]) != StringForm(vs[j])
      {
        if j < n {
          assert q[i] == vs[i] && q[j] == vs[j];
        } else {
          assert Strings(q)[i] == StringForm(vs[i]);
        }
      }
    }
    if DistinctStrings(vs) {
      assert DistinctStrings(q) by {
        forall i, j | 0 <= i < j < |q|
          ensures StringForm(q[i]) != StringForm(q[j])
        {
          assert q[i] == vs[i] && q[j] == vs[j];
        }
      }
      assert forall i :: 0 <= i < n ==> Strings(q)[i] != StringForm(vs[n]);
    }
  }

  lemma StepFirst(vs: seq<Value>, q: seq<Value>, p: seq<(nat, Value)>, r: seq<(nat, Value)>)
    requires |vs| > 0 && q == vs[..|vs| - 1]
    requires UniqueEntriesOf(q, p)
    requires r == if StringForm(vs[|q|]) in Strings(q) then p else p + [(|q|, vs[|q|])]
    ensures forall k :: 0 <= k < |vs| ==> ((k, vs[k]) in r <==> FirstOfItsForm(vs, k))
  {
    var n := |q|;
    forall k | 0 <= k < |vs|
      ensures (k, vs[k]) in r <==> FirstOfItsForm(vs, k)
    {
      if k < n {
        assert q[k] == vs[k] && q[..k] == vs[..k];
        assert FirstOfItsForm(q, k) == FirstOfItsForm(vs, k);
        assert (k, vs[k]) in r <==> (k, vs[k]) in p;
      } else {
        assert (n, vs[n]) !in p;
        assert vs[..k] == q;
      }
    }
  }

  /** `array_unique($vs) === $vs` holds exactly when no two values share a string form. */
  lemma {:induction false} ArrayUniqueIdentical(vs: seq<Value>)
    ensures ArrayUnique(vs) == Entries(vs) <==> DistinctStrings(vs)
  {
    if DistinctStrings(vs) && |vs| > 0 {
      var n := |vs| - 1;
      assert DistinctStrings(vs[..n]);
      ArrayUniqueIdentical(vs[..n]);
      assert StringForm(vs[n]) !in Strings(vs[..n]);
      assert Entries(vs) == Entries(vs[..n]) + [(n, vs[n])];
    }
  }

  /** `explode($d, $s)`: the pieces between occurrences of `d`, empty pieces kept. */
  function Explode(d: char, s: string): (parts: seq<string>)
    ensures |parts| >= 1
    ensures forall k :: 0 <= k < |parts| ==> d !in parts[k]
    decreases |s|
  {
    if |s| == 0 then [""]
    else
      var rest := Explode(d, s[1..]);
      if s[0] == d then [""] + rest
      else [[s[0]] + rest[0]] + rest[1..]
  }

  /** `implode($d, $parts)`. */
  function Implode(d: char, parts: seq<string>): string
    requires |parts| >= 1
    decreases |parts|
  {
    if |parts| == 1 then parts[0] else parts[0] + [d] + Implode(d, parts[1..])
  }

  /** Joining the pieces of `explode` gives the string back. */
  lemma {:induction false} ImplodeExplode(d: char, s: string)
    ensures Implode(d, Explode(d, s)) == s
    decreases |s|
  {
    if |s| > 0 {
      var rest := Explode(d, s[1..]);
      ImplodeExplode(d, s[1..]);
      if s[0] != d {
        var parts := Explode(d, s);
        if |rest| > 1 {
          assert parts[1..] == rest[1..];
          assert Implode(d, parts) == [s[0]] + (rest[0] + [d] + Implode(d, rest[1..]));
        }
        assert Implode(d, parts) == [s[0]] + Implode(d, rest);
        assert s == [s[0]] + s[1..];
      } else {
        assert ([""] + rest)[1..] == rest;
      }
    }
  }

  /** A string without the delimiter explodes to itself. */
  lemma {:induction false} ExplodeWithoutDelimiter(d: char, s: string)
    requires d !in s
    ensures Explode(d, s) == [s]
    decreases |s|
  {
    if |s| > 0 {
      assert d !in s[1..];
      ExplodeWithoutDelimiter(d, s[1..]);
      assert [s[0]] + s[1..] == s;
    }
  }

  lemma {:induction false} ExplodeConcat(d: char, a: string, b: string)
    requires d !in a
    ensures Explode(d, a + [d] + b) == [a] + Explode(d, b)
    decreases |a|
  {
    if |a| == 0 {
      assert a + [d] + b == [d] + b;
      assert ([d] + b)[1..] == b;
    } else {
      assert (a + [d] + b)[1..] == a[1..] + [d] + b;
      assert d !in a[1..];
      ExplodeConcat(d, a[1..], b);
      assert [a[0]] + a[1..] == a;
    }
  }

  /** Exploding the join of delimiter-free pieces gives the pieces back. */
  lemma {:induction false} ExplodeImplode(d: char, parts: seq<string>)
    requires |parts| >= 1
    requires forall k :: 0 <= k < |parts| ==> d !in parts[k]
    ensures Explode(d, Implode(d, parts)) == parts
    decreases |parts|
  {
    if |parts| == 1 {
      ExplodeWithoutDelimiter(d, parts[0]);
    } else {
      ExplodeImplode(d, parts[1..]);
      ExplodeConcat(d, parts[0], Implode(d, parts[1..]));
      assert [parts[0]] + parts[1..] == parts;
    }
  }

  /** Characters `trim()` strips by default. */
  const TrimChars: set<char> := {' ', '\t', '\n', '\r', '\0', '\U{B}'}

  predicate IsTrimChar(c: char)
  {
    c in TrimChars
  }

  /** `s` neither starts nor ends with a character `trim()` strips. */
  predicate IsTrimmed(s: string)
  {
    |s| == 0 || (!IsTrimChar(s[0]) && !IsTrimChar(s[|s| - 1]))
  }

  /** The first index at or after `i` that holds no strippable character. */
  function SkipTrimFrom(s: string, i: nat): (n: nat)
    requires i <= |s|
    ensures i <= n <= |s|
    ensures forall k :: i <= k < n ==> IsTrimChar(s[k])
    ensures n < |s| ==> !IsTrimChar(s[n])
    decreases |s| - i
  {
    if i < |s| && IsTrimChar(s[i]) then SkipTrimFrom(s, i + 1) else i
  }

  /** The end of `s[lo..hi]` once strippable characters are dropped from its right. */
  function TrimEndFrom(s: string, lo: nat, hi: nat): (n: nat)
    requires lo <= hi <= |s|
    ensures lo <= n <= hi
    ensures forall k :: n <= k < hi ==> IsTrimChar(s[k])
    ensures n > lo ==> !IsTrimChar(s[n - 1])
    decreases hi
  {
    if hi > lo && IsTrimChar(s[hi - 1]) then TrimEndFrom(s, lo, hi - 1) else hi
  }

  /** Where the result of `trim($s)` starts inside `s`. */
  function TrimStart(s: string): nat
  {
    SkipTrimFrom(s, 0)
  }

  /**
   `trim($s)`: drops the strippable characters at both ends and nothing
   else, so the result is a slice of `s` with no strippable end.
   */
  function Trim(s: string): (r: string)
    ensures IsTrimmed(r)
    ensures TrimStart(s) + |r| <= |s| && r == s[TrimStart(s)..TrimStart(s) + |r|]
    ensures forall k :: 0 <= k < TrimStart(s) ==> IsTrimChar(s[k])
    ensures forall k :: TrimStart(s) + |r| <= k < |s| ==> IsTrimChar(s[k])
  {
    s[TrimStart(s)..TrimEndFrom(s, TrimStart(s), |s|)]
  }

  /** `trim` leaves a string alone exactly when it has no strippable end. */
  lemma TrimFixedPoint(s: string)
    ensures Trim(s) == s <==> IsTrimmed(s)
  {
    if IsTrimmed(s) && |s| > 0 {
      assert TrimStart(s) == 0;
      assert TrimEndFrom(s, 0, |s|) == |s|;
      assert s[0..|s|] == s;
    }
  }

  /** `trim` is idempotent. */
  lemma TrimIdempotent(s: string)
    ensures Trim(Trim(s)) == Trim(s)
  {
    TrimFixedPoint(Trim(s));
  }

  /** `GeneralUtility::trimExplode($d, $s)`: explode, then trim every piece. */
  function TrimExplode(d: char, s: string): (parts: seq<string>)
    ensures |parts| == |Explode(d, s)|
    ensures forall k :: 0 <= k < |parts| ==> parts[k] == Trim(Explode(d, s)[k])
    ensures |parts| >= 1
    ensures forall k :: 0 <= k < |parts| ==> d !in parts[k] && IsTrimmed(parts[k])
  {
    var raw := Explode(d, s);
    seq(|raw|, k requires 0 <= k < |raw| => Trim(raw[k]))
  }
}
