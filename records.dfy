/**
 Plain JavaScript records as the store sees them: an object is a map from
 field name to value, `{ ...a, ...b }` is map union with the right side
 winning, and lodash `pick` is a restriction of the map to named keys.
 */
module Records {

  /** `undefined` versus a present value. */
  datatype Option<+T> = None | Some(value: T)

  /** The field values the tables store: strings, (integral) numbers, booleans. */
  datatype Value = Str(s: string) | Num(n: int) | Bool(b: bool)

  /** A record (or a `Partial` record): field name to value. */
  type Row = map<string, Value>

  /** `m[k]` on a JavaScript dictionary: absent keys read as `undefined`. */
  function Lookup<V>(m: map<string, V>, k: string): (r: Option<V>)
    ensures r.Some? <==> k in m
    ensures r.Some? ==> r.value == m[k]
  {
    if k in m then Some(m[k]) else None
  }

  /** Shallow spread `{ ...base, ...patch }`: every field of `patch` wins,
      the other fields of `base` pass through unchanged. */
  function Merge(base: Row, patch: Row): (r: Row)
    ensures r.Keys == base.Keys + patch.Keys
    ensures forall f :: f in patch ==> r[f] == patch[f]
    ensures forall f :: f in base && f !in patch ==> r[f] == base[f]
  {
    base + patch
  }

  /** Spreading in two steps is spreading once with the two patches merged. */
  lemma MergeTwice(base: Row, p: Row, q: Row)
    ensures Merge(Merge(base, p), q) == Merge(base, Merge(p, q))
  {
  }

  /** Merging an empty patch leaves the record as it was. */
  lemma MergeEmpty(base: Row)
    ensures Merge(base, map[]) == base
  {
  }

  /** lodash `pick(row, keys)`: the named keys that the record has, and no other. */
  function Pick(row: Row, keys: seq<string>): (r: Row)
    ensures forall f :: f in r <==> f in row && f in keys
    ensures forall f :: f in r ==> r[f] == row[f]
  {
    map f | f in keys && f in row :: row[f]
  }

  /** JavaScript `String(v)` for the values above; numbers are integers below
      1e21 in magnitude, which JavaScript prints in plain decimal notation:
      a leading `-` for a negative number, then the digits of its magnitude
      (`NumberText` reads them back). */
  function Stringify(v: Value): (r: string)
    ensures v.Str? ==> r == v.s
    ensures v.Bool? ==> (r == "true" <==> v.b) && (r == "false" <==> !v.b)
    ensures v.Num? ==> |r| > 0 && (r[0] == '-' <==> v.n < 0)
  {
    match v
    case Str(s) => s
    case Bool(b) => if b then "true" else "false"
    case Num(n) =>
      if n < 0 then "-" + Decimal(-n) else Decimal(n)
  }

  /** A non-empty string of decimal digits. */
  predicate IsDigits(r: string)
  {
    |r| > 0 && forall i :: 0 <= i < |r| ==> '0' <= r[i] <= '9'
  }

  /** The value of one decimal digit character. */
  function DigitValue(c: char): nat
  {
    if '0' <= c <= '9' then c as int - '0' as int else 0
  }

  /** The number a string of decimal digits denotes, read left to right: each
      digit multiplies the value read so far by ten and adds itself. */
  function DigitsValue(r: string): nat
    decreases |r|
  {
    if |r| == 0 then 0 else 10 * DigitsValue(r[..|r| - 1]) + DigitValue(r[|r| - 1])
  }

  /** Decimal digits of a natural number, most significant first, with no
      leading zero (a leading `0` is the whole text `"0"`); read back, they
      denote the number. */
  function Decimal(n: nat): (r: string)
    ensures IsDigits(r)
    ensures r[0] == '0' ==> |r| == 1
    ensures DigitsValue(r) == n
    decreases n
  {
    if n < 10 then [('0' as int + n) as char]
    else
      var r := Decimal(n / 10) + [('0' as int + n % 10) as char];
      assert r[..|r| - 1] == Decimal(n / 10);
      r
  }

  /** The text of a number denotes it: its digits read back to its magnitude,
      after a `-` exactly when it is negative. */
  lemma NumberText(n: int)
    ensures n >= 0 ==> IsDigits(Stringify(Num(n))) && DigitsValue(Stringify(Num(n))) == n
    ensures n == 0 ==> Stringify(Num(n)) == "0"
    ensures n < 0 ==> var r := Stringify(Num(n));
      r[0] == '-' && IsDigits(r[1..]) && DigitsValue(r[1..]) == -n
  {
    if n < 0 {
      assert Stringify(Num(n))[1..] == Decimal(-n);
    }
  }

  /** Distinct numbers print differently, so distinct numeric ids get distinct
      index keys; a number never prints as a boolean's text. */
  lemma NumbersPrintApart(a: int, b: int)
    ensures Stringify(Num(a)) == Stringify(Num(b)) ==> a == b
    ensures Stringify(Num(a)) != "true" && Stringify(Num(a)) != "false"
  {
    NumberText(a);
    NumberText(b);
    var r := Stringify(Num(a));
    if a >= 0 {
      assert r[0] != 't' && r[0] != 'f';
    }
  }
}
