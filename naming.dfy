/**
  The binding names the generator invents for positional fields:
  `format!("f{}", i)`, that is `f` followed by the decimal digits of `i`.
 */
module Naming {
  import opened Syntax

  function Digit(d: nat): (c: char)
    requires d < 10
    ensures '0' <= c <= '9'
  {
    (('0' as int) + d) as char
  }

  function DigitValue(c: char): nat {
    if '0' <= c <= '9' then (c as int) - ('0' as int) else 0
  }

  /** The decimal rendering of `n` that Rust's `{}` formatting of an integer produces. */
  function Decimal(n: nat): (s: string)
    ensures |s| >= 1
    ensures forall k :: 0 <= k < |s| ==> '0' <= s[k] <= '9'
    ensures (|s| == 1) == (n < 10)
    ensures n > 0 ==> s[0] != '0'
    decreases n
  {
    if n < 10 then [Digit(n)] else Decimal(n / 10) + [Digit(n % 10)]
  }

  /** Reads a string of decimal digits back as a number: the inverse of Decimal. */
  function ParseDecimal(s: string): nat
    decreases |s|
  {
    if s == [] then 0 else ParseDecimal(s[..|s| - 1]) * 10 + DigitValue(s[|s| - 1])
  }

  lemma {:induction false} ParseDecimalOfDecimal(n: nat)
    ensures ParseDecimal(Decimal(n)) == n
    decreases n
  {
    var s := Decimal(n);
    if n < 10 {
      assert s[..|s| - 1] == [];
    } else {
      assert s[..|s| - 1] == Decimal(n / 10);
      ParseDecimalOfDecimal(n / 10);
    }
  }

  /** The binding for the `i`-th positional field, `f{i}`. */
  function PositionalBinding(i: nat): (b: Ident)
    ensures |b| >= 2 && b[0] == 'f'
    ensures forall k :: 1 <= k < |b| ==> '0' <= b[k] <= '9'
    ensures ParseDecimal(b[1..]) == i
  {
    ParseDecimalOfDecimal(i);
    var b := "f" + Decimal(i);
    assert b[1..] == Decimal(i);
    b
  }

  lemma PositionalBindingInjective(i: nat, j: nat)
    ensures PositionalBinding(i) == PositionalBinding(j) <==> i == j
  {
  }

  /** The bindings `f0 .. f(n-1)` of a variant with `n` positional fields. */
  function PositionalBindings(n: nat): (bs: seq<Ident>)
    ensures |bs| == n
    ensures Distinct(bs)
    ensures forall i :: 0 <= i < n ==> bs[i] == PositionalBinding(i)
  {
    var bs := seq(n, i requires 0 <= i < n => PositionalBinding(i));
    assert Distinct(bs) by {
      forall i, j | 0 <= i < j < n ensures bs[i] != bs[j] {
        PositionalBindingInjective(i, j);
      }
    }
    bs
  }
}
