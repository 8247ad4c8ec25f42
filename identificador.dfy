/**
 * The id test of the controller, `!id || isNaN(id) || parseInt(id) <= 0`,
 * over the route parameter as a string. Only decimal-digit strings are
 * modelled as numbers: a non-empty string of digits whose value is positive
 * is accepted as that value, and every other string is refused.
 */
module Identificador {
  import opened Opcional

  predicate EhDigito(c: char) {
    '0' <= c <= '9'
  }

  /** A non-empty string of decimal digits. */
  predicate Digitos(s: string) {
    |s| > 0 && forall k :: 0 <= k < |s| ==> EhDigito(s[k])
  }

  function ValorDigito(c: char): (v: nat)
    requires EhDigito(c)
    ensures v < 10
  {
    c as int - '0' as int
  }

  function CharDigito(v: nat): (c: char)
    requires v < 10
    ensures EhDigito(c) && ValorDigito(c) == v
  {
    ('0' as int + v) as char
  }

  /** The number a string of digits denotes, most significant digit first. */
  function Valor(s: string): nat
    requires forall k :: 0 <= k < |s| ==> EhDigito(s[k])
    decreases |s|
  {
    if s == [] then 0 else Valor(s[..|s| - 1]) * 10 + ValorDigito(s[|s| - 1])
  }

  /** The id the controller passes on to the table (`parseInt(id)`), or None
      when it answers 400. */
  function ParseId(s: string): (r: Option<nat>)
    ensures r.Some? ==> r.value >= 1 && Digitos(s)
  {
    if Digitos(s) && Valor(s) > 0 then Some(Valor(s)) else None
  }

  /** The decimal notation of n, without leading zeros. */
  function Decimal(n: nat): (s: string)
    ensures Digitos(s)
    decreases n
  {
    if n < 10 then [CharDigito(n)] else Decimal(n / 10) + [CharDigito(n % 10)]
  }

  /** The decimal notation of n denotes n. */
  lemma {:induction false} ValorDecimal(n: nat)
    ensures Valor(Decimal(n)) == n
    decreases n
  {
    if n >= 10 {
      var s := Decimal(n);
      ValorDecimal(n / 10);
      assert s[..|s| - 1] == Decimal(n / 10);
    }
  }

  /** Every positive id, written in decimal, is accepted as itself. */
  lemma ParseIdDecimal(n: nat)
    requires n > 0
    ensures ParseId(Decimal(n)) == Some(n)
  {
    ValorDecimal(n);
  }

  /** Digits that do not start with '0' denote a positive number. */
  lemma {:induction false} ValorPositivo(s: string)
    requires Digitos(s) && s[0] != '0'
    ensures Valor(s) > 0
    decreases |s|
  {
    if |s| > 1 {
      ValorPositivo(s[..|s| - 1]);
    }
  }

  /** An accepted id without leading zeros is the decimal notation of its
      value: the two conversions are inverse. */
  lemma {:induction false} DecimalParseId(s: string)
    requires ParseId(s).Some? && s[0] != '0'
    ensures Decimal(ParseId(s).value) == s
    decreases |s|
  {
    var p := s[..|s| - 1];
    var c := s[|s| - 1];
    if |p| > 0 {
      ValorPositivo(p);
      assert ParseId(p) == Some(Valor(p));
      DecimalParseId(p);
      var n := Valor(s);
      assert n / 10 == Valor(p) && n % 10 == ValorDigito(c);
      assert CharDigito(ValorDigito(c)) == c;
      assert s == p + [c];
    } else {
      assert s == [c] && Valor(s) == ValorDigito(c);
      assert CharDigito(ValorDigito(c)) == c;
    }
  }

  /** Digits that are all '0' denote zero, so "0", "00", ... are refused. */
  lemma {:induction false} ZerosRecusados(s: string)
    requires forall k :: 0 <= k < |s| ==> s[k] == '0'
    ensures ParseId(s) == None
    decreases |s|
  {
    if |s| > 0 {
      ZerosRecusados(s[..|s| - 1]);
      assert Valor(s[..|s| - 1]) == 0;
    }
  }

  /** Refused examples of the controller's tests: an empty id, a word and a
      negative number; and an accepted one. */
  lemma ExemplosId()
    ensures ParseId("") == None
    ensures ParseId("abc") == None
    ensures ParseId("-1") == None
    ensures ParseId("1") == Some(1)
  {
    assert !EhDigito("abc"[0]);
    assert !EhDigito("-1"[0]);
  }
}
