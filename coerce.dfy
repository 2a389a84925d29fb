/** Parameter coercion: `value.parse::<T>()` on each captured text, where a
    failure makes the route give no result. The model has the two types the
    router's tests and benchmark use: `String` and `u32`. */
module Coerce {
  import opened Wrappers
  import opened Routes

  const U32Max: int := 0xFFFF_FFFF

  newtype u32 = x: int | 0 <= x <= 0xFFFF_FFFF

  /** A handler argument. */
  datatype Value = Text(s: string) | Number(n: u32)

  predicate HasType(v: Value, ty: ParamType)
  {
    match ty
    case StringType => v.Text?
    case U32Type => v.Number?
  }

  predicate IsDigit(c: char)
  {
    '0' <= c <= '9'
  }

  function DigitOf(c: char): nat
    requires IsDigit(c)
  {
    c as int - '0' as int
  }

  predicate AllDigits(t: string)
  {
    forall i :: 0 <= i < |t| ==> IsDigit(t[i])
  }

  /** The number the digits `t` denote when written after digits already worth `acc`. */
  function Horner(acc: nat, t: string): nat
    requires AllDigits(t)
    decreases |t|
  {
    if t == [] then acc else Horner(acc * 10 + DigitOf(t[0]), t[1..])
  }

  /** The value of a decimal digit string; leading zeros are allowed. */
  function DecimalValue(t: string): nat
    requires AllDigits(t)
  {
    Horner(0, t)
  }

  lemma {:induction false} HornerAtLeast(acc: nat, t: string)
    requires AllDigits(t)
    ensures Horner(acc, t) >= acc
    decreases |t|
  {
    if t != [] {
      HornerAtLeast(acc * 10 + DigitOf(t[0]), t[1..]);
    }
  }

  /** The accumulation loop of Rust's unsigned integer parsing: per digit,
      multiply by ten and add, with a checked operation that fails as soon as
      the value leaves `u32`; any non-digit fails too. */
  function Accumulate(acc: u32, t: string): (r: Option<u32>)
    ensures r.Some? <==> AllDigits(t) && Horner(acc as nat, t) <= U32Max
    ensures r.Some? ==> r.value as int == Horner(acc as nat, t)
    decreases |t|
  {
    if t == [] then Some(acc)
    else if !IsDigit(t[0]) then None
    else
      var next := acc as int * 10 + DigitOf(t[0]);
      if next > U32Max then
        (if AllDigits(t) then HornerAtLeast(next, t[1..]); None else None)
      else Accumulate(next as u32, t[1..])
  }

  /** The digits of `s` after at most one leading `+`. */
  function Unsigned(s: string): string
  {
    if |s| > 0 && s[0] == '+' then s[1..] else s
  }

  /** `s.parse::<u32>()`: an optional `+`, then one or more decimal digits
      whose value fits in 32 bits. */
  function ParseU32(s: string): (r: Option<u32>)
    ensures r.Some? <==> var d := Unsigned(s); d != [] && AllDigits(d) && DecimalValue(d) <= U32Max
    ensures r.Some? ==> r.value as int == DecimalValue(Unsigned(s))
  {
    if s == [] then None
    else if s[0] == '+' then (if |s| == 1 then None else Accumulate(0, s[1..]))
    else Accumulate(0, s)
  }

  /** On captured texts, which never hold a `+`, a `u32` parse succeeds exactly
      on digit strings of value at most 4294967295. */
  lemma ParseU32OnRouteText(s: string)
    requires IsRouteText(s)
    ensures ParseU32(s).Some? <==> AllDigits(s) && DecimalValue(s) <= U32Max
    ensures ParseU32(s).Some? ==> ParseU32(s).value as int == DecimalValue(s)
  {
    assert IsRouteChar(s[0]);
  }

  // ---------------------------------------------------------------------------
  // Decimal rendering, the inverse of parsing.

  function DigitChar(d: nat): (c: char)
    requires d < 10
    ensures IsDigit(c) && DigitOf(c) == d
  {
    ('0' as int + d) as char
  }

  /** `format!("{}", n)`: decimal digits without leading zeros. */
  function Decimal(n: nat): (t: string)
    ensures t != [] && AllDigits(t)
  {
    if n < 10 then [DigitChar(n)] else Decimal(n / 10) + [DigitChar(n % 10)]
  }

  lemma {:induction false} HornerSnoc(acc: nat, t: string, c: char)
    requires AllDigits(t) && IsDigit(c)
    ensures AllDigits(t + [c])
    ensures Horner(acc, t + [c]) == Horner(acc, t) * 10 + DigitOf(c)
    decreases |t|
  {
    if t == [] {
      assert t + [c] == [c];
    } else {
      assert (t + [c])[1..] == t[1..] + [c];
      HornerSnoc(acc * 10 + DigitOf(t[0]), t[1..], c);
    }
  }

  lemma {:induction false} DecimalValueOfDecimal(n: nat)
    ensures DecimalValue(Decimal(n)) == n
  {
    if n < 10 {
      var t := Decimal(n);
      assert t == [DigitChar(n)] && t[1..] == [];
      assert Horner(0, t) == Horner(0 * 10 + DigitOf(t[0]), t[1..]);
    } else {
      var prefix, last := Decimal(n / 10), DigitChar(n % 10);
      DecimalValueOfDecimal(n / 10);
      HornerSnoc(0, prefix, last);
      assert Decimal(n) == prefix + [last];
      assert n == (n / 10) * 10 + n % 10;
    }
  }

  /** Rendering a `u32` in decimal and parsing it back gives the number. */
  lemma ParseDecimal(n: u32)
    ensures ParseU32(Decimal(n as nat)) == Some(n)
  {
    var t := Decimal(n as nat);
    DecimalValueOfDecimal(n as nat);
    assert IsDigit(t[0]);
  }

  /** A number written in decimal is text a placeholder can capture. */
  lemma DecimalIsRouteText(n: nat)
    ensures IsRouteText(Decimal(n))
  {
    var t := Decimal(n);
    forall i | 0 <= i < |t| ensures IsRouteChar(t[i]) {
      assert IsDigit(t[i]);
    }
  }

  // ---------------------------------------------------------------------------
  // Coercing captures to the declared types.

  /** `parse::<T>()` for one capture: `String` always succeeds, `u32` as above. */
  function CoerceParam(ty: ParamType, text: string): (r: Option<Value>)
    ensures r.Some? ==> HasType(r.value, ty)
  {
    match ty
    case StringType => Some(Text(text))
    case U32Type =>
      match ParseU32(text)
      case None => None
      case Some(n) => Some(Number(n))
  }

  /** The text a handler argument takes in a path. */
  function Show(v: Value): string
  {
    match v
    case Text(s) => s
    case Number(n) => Decimal(n as nat)
  }

  /** A value that can be written into a path: every number, and every text
      a placeholder can capture. */
  predicate Routable(v: Value)
  {
    v.Text? ==> IsRouteText(v.s)
  }

  /** The text of a routable value is text a placeholder captures whole. */
  lemma ShowIsRouteText(v: Value)
    requires Routable(v)
    ensures IsRouteText(Show(v))
  {
    if v.Number? {
      DecimalIsRouteText(v.n as nat);
    }
  }

  /** Every argument survives being written into a path and coerced back. */
  lemma CoerceShow(v: Value, ty: ParamType)
    requires HasType(v, ty)
    ensures CoerceParam(ty, Show(v)) == Some(v)
  {
    if ty == U32Type {
      ParseDecimal(v.n);
    }
  }

  /** The handler's arguments: each capture coerced to its type, left to right;
      the first failure ends the attempt (the early `return None`). */
  function CoerceAll(types: seq<ParamType>, caps: seq<string>): (r: Option<seq<Value>>)
    requires |types| == |caps|
    ensures r.Some? <==> forall i :: 0 <= i < |caps| ==> CoerceParam(types[i], caps[i]).Some?
    ensures r.Some? ==> |r.value| == |caps|
    ensures r.Some? ==> forall i :: 0 <= i < |caps| ==> r.value[i] == CoerceParam(types[i], caps[i]).value
  {
    if caps == [] then Some([])
    else match CoerceParam(types[0], caps[0])
      case None => None
      case Some(v) =>
        match CoerceAll(types[1..], caps[1..])
        case None => None
        case Some(vs) => Some([v] + vs)
  }
}
