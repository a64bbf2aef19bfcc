/** The few pieces of Java behaviour the repositories rely on: nullable strings,
    the two exception classes callers see, 32-bit `int`, `Integer.parseInt`,
    `String.valueOf(int)`, and the StringBuilder loop that joins result rows. */
module JavaLang {

  /** A Java `String` that may be `null`. */
  datatype Option<+T> = None | Some(value: T)

  /** `java.sql.SQLException` (message as `getMessage()` returns it) and
      `java.lang.NumberFormatException` (for the offending input). */
  datatype Exception = SqlException(message: string) | NumberFormatException(input: string)

  /** A Java call that returns a value or throws. */
  datatype Result<+T> = Ok(value: T) | Throws(error: Exception)

  const MinInt32: int := -0x8000_0000
  const MaxInt32: int := 0x7fff_ffff

  /** Java's `int`. */
  type Int32 = x: int | -0x8000_0000 <= x <= 0x7fff_ffff

  /** A 64-bit engine integer read through `ResultSet.getInt`: the low 32 bits,
      read as a two's-complement number. */
  function ToInt32(x: int): (r: Int32)
    ensures (x - r) % 0x1_0000_0000 == 0
    ensures MinInt32 <= x <= MaxInt32 ==> r == x
  {
    var m := x % 0x1_0000_0000;
    assert x == (x / 0x1_0000_0000) * 0x1_0000_0000 + m;
    if m <= MaxInt32 then m else m - 0x1_0000_0000
  }

  /** The text Java produces when a possibly-null string is appended to a
      StringBuilder or concatenated with `+`. */
  function JavaText(s: Option<string>): (t: string)
    ensures s.Some? ==> t == s.value
    ensures s.None? ==> t == "null"
  {
    match s
    case None => "null"
    case Some(t) => t
  }

  // ---------------------------------------------------------------------
  // Decimal text: String.valueOf(int) and Integer.parseInt(String)
  // ---------------------------------------------------------------------

  predicate IsDigit(c: char) { '0' <= c <= '9' }

  predicate AllDigits(s: string) { forall i :: 0 <= i < |s| ==> IsDigit(s[i]) }

  function DigitValue(c: char): (d: nat)
    requires IsDigit(c)
    ensures d < 10
  {
    (c as int) - ('0' as int)
  }

  function DigitChar(d: nat): (c: char)
    requires d < 10
    ensures IsDigit(c) && DigitValue(c) == d
  {
    (('0' as int) + d) as char
  }

  /** Decimal digits of a natural number, most significant first, no leading zeros. */
  function NatToString(n: nat): (s: string)
    ensures |s| > 0 && AllDigits(s)
    decreases n
  {
    if n < 10 then [DigitChar(n)] else NatToString(n / 10) + [DigitChar(n % 10)]
  }

  /** `String.valueOf(n)` / `Integer.toString(n)`. */
  function IntToString(n: int): (s: string)
    ensures |s| > 0
  {
    if n < 0 then "-" + NatToString(-n) else NatToString(n)
  }

  /** The number a string of decimal digits denotes. */
  function DigitsValue(s: string): nat
    requires AllDigits(s)
  {
    if s == [] then 0 else DigitsValue(s[..|s| - 1]) * 10 + DigitValue(s[|s| - 1])
  }

  lemma {:induction false} DigitsOfNat(n: nat)
    ensures DigitsValue(NatToString(n)) == n
    decreases n
  {
    var s := NatToString(n);
    if n >= 10 {
      DigitsOfNat(n / 10);
      assert s[..|s| - 1] == NatToString(n / 10);
    }
  }

  /** `Integer.parseInt(s)`: an optional `-` or `+` followed by at least one
      decimal digit, denoting a value in the range of `int`; anything else
      throws NumberFormatException. */
  function ParseInt(s: string): (r: Result<Int32>)
    ensures r.Throws? ==> r.error == NumberFormatException(s)
    ensures r.Ok? ==> |s| > 0 && (IsDigit(s[0]) || (s[0] in "+-" && |s| > 1))
    ensures r.Ok? ==> forall i :: 0 < i < |s| ==> IsDigit(s[i])
    ensures |s| > 0 && AllDigits(s) ==>
      r == if DigitsValue(s) <= MaxInt32 then Ok(DigitsValue(s)) else Throws(NumberFormatException(s))
    ensures |s| > 1 && s[0] == '+' && AllDigits(s[1..]) ==>
      r == if DigitsValue(s[1..]) <= MaxInt32 then Ok(DigitsValue(s[1..])) else Throws(NumberFormatException(s))
    ensures |s| > 1 && s[0] == '-' && AllDigits(s[1..]) ==>
      r == if DigitsValue(s[1..]) <= -MinInt32 then Ok(-(DigitsValue(s[1..]) as int)) else Throws(NumberFormatException(s))
  {
    if |s| == 0 then Throws(NumberFormatException(s))
    else
      var signed := s[0] == '-' || s[0] == '+';
      var digits := if signed then s[1..] else s;
      if |digits| == 0 || !AllDigits(digits) then Throws(NumberFormatException(s))
      else
        var v: int := if s[0] == '-' then -(DigitsValue(digits) as int) else DigitsValue(digits);
        if MinInt32 <= v <= MaxInt32 then
          assert forall i :: 0 < i < |s| ==> IsDigit(s[i]) by {
            forall i | 0 < i < |s| ensures IsDigit(s[i]) {
              if signed { assert s[i] == digits[i - 1]; } else { assert s[i] == digits[i]; }
            }
          }
          Ok(v)
        else Throws(NumberFormatException(s))
  }

  /** `Integer.parseInt(String.valueOf(n)) == n` for every `int` n. */
  lemma ParseIntOfIntToString(n: Int32)
    ensures ParseInt(IntToString(n)) == Ok(n)
  {
    var s := IntToString(n);
    if n < 0 {
      DigitsOfNat(-(n as int));
      assert s[1..] == NatToString(-(n as int));
    } else {
      DigitsOfNat(n);
      assert IsDigit(s[0]);
    }
  }

  // ---------------------------------------------------------------------
  // The StringBuilder joining loop: for every row, a separator ", " goes in
  // first when the builder already holds text, then the row's value.
  // ---------------------------------------------------------------------

  const Separator: string := ", "

  /** One iteration of the loop: the separator goes in only when the builder
      already holds text. */
  function Append(sb: string, value: string): string
  {
    (if |sb| > 0 then sb + Separator else sb) + value
  }

  /** The builder's contents after appending `values` in order. */
  function Accumulate(values: seq<string>): string
  {
    if values == [] then "" else Append(Accumulate(values[..|values| - 1]), values[|values| - 1])
  }

  lemma AccumulateSnoc(values: seq<string>, v: string)
    ensures Accumulate(values + [v]) == Append(Accumulate(values), v)
  {
    assert (values + [v])[..|values|] == values;
  }

  /** Reference definition: the values separated by ", ". */
  function Join(values: seq<string>): string
  {
    if values == [] then ""
    else if |values| == 1 then values[0]
    else values[0] + Separator + Join(values[1..])
  }

  /** The values from the first non-empty one on. */
  function DropLeadingEmpty(values: seq<string>): (r: seq<string>)
    ensures r == [] || r[0] != ""
    ensures |r| <= |values| && r == values[|values| - |r|..]
  {
    if values == [] then [] else if values[0] == "" then DropLeadingEmpty(values[1..]) else values
  }

  lemma {:induction false} JoinSnoc(values: seq<string>, v: string)
    requires values != []
    ensures Join(values + [v]) == Join(values) + Separator + v
    decreases |values|
  {
    if |values| > 1 {
      assert (values + [v])[1..] == values[1..] + [v];
      JoinSnoc(values[1..], v);
    }
  }

  lemma {:induction false} JoinNonEmpty(values: seq<string>)
    requires values != [] && values[0] != ""
    ensures |Join(values)| > 0
  {
  }

  lemma {:induction false} DropLeadingEmptySnoc(values: seq<string>, v: string)
    ensures DropLeadingEmpty(values + [v]) ==
            if DropLeadingEmpty(values) == [] then DropLeadingEmpty([v]) else DropLeadingEmpty(values) + [v]
    decreases |values|
  {
    if values != [] {
      assert (values + [v])[1..] == values[1..] + [v];
      if values[0] == "" { DropLeadingEmptySnoc(values[1..], v); }
    }
  }

  /** The builder loop's result is the ", "-join of the values, except that
      empty values before the first non-empty one leave no trace. */
  lemma {:induction false} AccumulateIsJoin(values: seq<string>)
    ensures Accumulate(values) == Join(DropLeadingEmpty(values))
    decreases |values|
  {
    if values != [] {
      var init, v := values[..|values| - 1], values[|values| - 1];
      assert values == init + [v];
      assert Accumulate(values) == Append(Accumulate(init), v);
      AccumulateIsJoin(init);
      DropLeadingEmptySnoc(init, v);
      var d := DropLeadingEmpty(init);
      if d == [] {
        assert Accumulate(init) == "";
        assert Accumulate(values) == v;
      } else {
        JoinNonEmpty(d);
        JoinSnoc(d, v);
        assert DropLeadingEmpty(values) == d + [v];
      }
    }
  }

  predicate AllEmpty(values: seq<string>)
  {
    forall i :: 0 <= i < |values| ==> values[i] == ""
  }

  /** The builder ends up empty exactly when every appended value was empty. */
  lemma {:induction false} AccumulateEmptyIff(values: seq<string>)
    ensures Accumulate(values) == "" <==> AllEmpty(values)
    decreases |values|
  {
    if values != [] {
      var init := values[..|values| - 1];
      AccumulateEmptyIff(init);
      assert forall i :: 0 <= i < |init| ==> init[i] == values[i];
    }
  }

  /** `t` occurs in `s` from index `k` on. */
  predicate OccursAt(s: string, t: string, k: int)
  {
    0 <= k <= |s| - |t| && s[k..k + |t|] == t
  }

  /** `s.contains(t)`. */
  ghost predicate Contains(s: string, t: string)
  {
    exists k :: OccursAt(s, t, k)
  }

  /** Every appended value occurs in the builder's text. */
  lemma {:induction false} AccumulateContains(values: seq<string>, i: nat)
    requires i < |values|
    ensures Contains(Accumulate(values), values[i])
    decreases |values|
  {
    var init, v := values[..|values| - 1], values[|values| - 1];
    var pre := Accumulate(init);
    var p := if |pre| > 0 then pre + Separator else pre;
    var s := Accumulate(values);
    assert s == p + v;
    if i == |values| - 1 {
      assert OccursAt(s, v, |p|);
    } else {
      AccumulateContains(init, i);
      var t := values[i];
      assert init[i] == t;
      var k :| OccursAt(pre, t, k);
      assert s[k..k + |t|] == pre[k..k + |t|];
      assert OccursAt(s, t, k);
    }
  }

  lemma {:induction false} JoinCommaIffSeveral(values: seq<string>)
    requires forall i :: 0 <= i < |values| ==> ',' !in values[i]
    ensures ',' in Join(values) <==> |values| >= 2
    decreases |values|
  {
    if |values| >= 2 {
      var j := values[0] + Separator + Join(values[1..]);
      assert j[|values[0]|] == ',';
    } else if |values| == 1 {
      assert Join(values) == values[0];
    }
  }

  /** When no value is empty or contains a comma, the joined text contains a
      comma exactly when at least two values were appended. */
  lemma CommaIffSeveral(values: seq<string>)
    requires forall i :: 0 <= i < |values| ==> values[i] != "" && ',' !in values[i]
    ensures ',' in Accumulate(values) <==> |values| >= 2
  {
    AccumulateIsJoin(values);
    assert DropLeadingEmpty(values) == values;
    JoinCommaIffSeveral(values);
  }
}
