/**
 * The JavaScript string operations the validator and the gateway rely on:
 * `String.prototype.trim`, the regular-expression class `\s`,
 * `String.prototype.toLowerCase`, `String.prototype.length` (UTF-16 code units)
 * and the ascending order the table's `ORDER BY nome` produces.
 */
module Texto {

  /** The characters JavaScript's `trim` removes and `\s` matches
      (WhiteSpace and LineTerminator of ECMA-262). */
  predicate EhEspaco(c: char) {
    || c == '\t' || c == '\n' || c == '\U{000B}' || c == '\U{000C}' || c == '\r'
    || c == ' ' || c == '\U{00A0}' || c == '\U{1680}'
    || ('\U{2000}' <= c <= '\U{200A}')
    || c == '\U{2028}' || c == '\U{2029}' || c == '\U{202F}' || c == '\U{205F}'
    || c == '\U{3000}' || c == '\U{FEFF}'
  }

  ghost predicate SoEspacos(s: string) {
    forall k :: 0 <= k < |s| ==> EhEspaco(s[k])
  }

  ghost predicate SemEspacos(s: string) {
    forall k :: 0 <= k < |s| ==> !EhEspaco(s[k])
  }

  /** Drops leading whitespace. */
  function TrimInicio(s: string): string
    decreases |s|
  {
    if |s| > 0 && EhEspaco(s[0]) then TrimInicio(s[1..]) else s
  }

  /** Drops trailing whitespace. */
  function TrimFim(s: string): string
    decreases |s|
  {
    if |s| > 0 && EhEspaco(s[|s| - 1]) then TrimFim(s[..|s| - 1]) else s
  }

  /** `s.trim()`. */
  function Trim(s: string): string {
    TrimFim(TrimInicio(s))
  }

  /** What `TrimInicio` keeps is a suffix that does not start with
      whitespace, and what it drops is whitespace. */
  lemma {:induction false} TrimInicioSufixo(s: string)
    ensures |TrimInicio(s)| <= |s| && TrimInicio(s) == s[|s| - |TrimInicio(s)|..]
    ensures SoEspacos(s[..|s| - |TrimInicio(s)|])
    ensures TrimInicio(s) == [] || !EhEspaco(TrimInicio(s)[0])
    decreases |s|
  {
    if |s| > 0 && EhEspaco(s[0]) {
      var r := TrimInicio(s[1..]);
      TrimInicioSufixo(s[1..]);
      assert TrimInicio(s) == r;
      var n := |s| - |r|;
      assert s[1..][|s| - 1 - |r|..] == s[n..];
      forall k | 0 <= k < n ensures EhEspaco(s[..n][k]) {
        if k > 0 { assert s[..n][k] == s[1..][..n - 1][k - 1]; }
      }
    }
  }

  /** What `TrimFim` keeps is a prefix that does not end with whitespace,
      and what it drops is whitespace. */
  lemma {:induction false} TrimFimPrefixo(s: string)
    ensures |TrimFim(s)| <= |s| && TrimFim(s) == s[..|TrimFim(s)|]
    ensures SoEspacos(s[|TrimFim(s)|..])
    ensures TrimFim(s) == [] || !EhEspaco(TrimFim(s)[|TrimFim(s)| - 1])
    decreases |s|
  {
    if |s| > 0 && EhEspaco(s[|s| - 1]) {
      var p := s[..|s| - 1];
      var r := TrimFim(p);
      TrimFimPrefixo(p);
      assert TrimFim(s) == r;
      assert p[..|r|] == s[..|r|];
      forall k | 0 <= k < |s| - |r| ensures EhEspaco(s[|r|..][k]) {
        if k < |s| - 1 - |r| { assert s[|r|..][k] == p[|r|..][k]; }
      }
    }
  }

  /** `trim` removes whitespace only at the two ends: its result is the infix
      s[i..j] with s[..i] and s[j..] all whitespace, and it neither starts nor
      ends with whitespace. */
  lemma TrimInfixo(s: string) returns (i: nat, j: nat)
    ensures i <= j <= |s| && Trim(s) == s[i..j]
    ensures SoEspacos(s[..i]) && SoEspacos(s[j..])
    ensures Trim(s) == [] || (!EhEspaco(Trim(s)[0]) && !EhEspaco(Trim(s)[|Trim(s)| - 1]))
  {
    var a := TrimInicio(s);
    TrimInicioSufixo(s);
    var r := TrimFim(a);
    TrimFimPrefixo(a);
    i := |s| - |a|;
    j := i + |r|;
    assert a == s[i..];
    assert r == a[..|r|] == s[i..j];
    assert a[|r|..] == s[j..];
  }

  /** `trim` changes nothing in a string that holds no whitespace. */
  lemma TrimSemEspacos(s: string)
    requires SemEspacos(s)
    ensures Trim(s) == s
  {
  }

  /** `trim` is idempotent. */
  lemma TrimIdempotente(s: string)
    ensures Trim(Trim(s)) == Trim(s)
  {
    var _, _ := TrimInfixo(s);
  }

  /** `toLowerCase` on one character, for the ASCII letters and the upper-case
      letters of Latin-1 (U+00C0..U+00DE except the multiplication sign). */
  function MinusculaChar(c: char): char {
    if 'A' <= c <= 'Z' || ('\U{00C0}' <= c <= '\U{00DE}' && c != '\U{00D7}') then
      (c as int + 32) as char
    else
      c
  }

  /** `s.toLowerCase()`, character by character. */
  function Minusculas(s: string): string {
    seq(|s|, k requires 0 <= k < |s| => MinusculaChar(s[k]))
  }

  /** Lower-casing twice is lower-casing once. */
  lemma MinusculasIdempotente(s: string)
    ensures Minusculas(Minusculas(s)) == Minusculas(s)
  {
    var r := Minusculas(s);
    forall k | 0 <= k < |s| ensures Minusculas(r)[k] == r[k] {
      assert MinusculaChar(MinusculaChar(s[k])) == MinusculaChar(s[k]);
    }
  }

  /** Lower-casing neither creates nor removes whitespace, nor a given
      non-letter such as '@' or '.'. */
  lemma MinusculasPreserva(s: string, k: nat)
    requires k < |s|
    ensures EhEspaco(Minusculas(s)[k]) <==> EhEspaco(s[k])
    ensures Minusculas(s)[k] == '@' <==> s[k] == '@'
    ensures Minusculas(s)[k] == '.' <==> s[k] == '.'
  {
  }

  /** `s.length`: UTF-16 code units, so a character outside the Basic
      Multilingual Plane counts twice. */
  function ComprimentoUtf16(s: string): (n: nat)
    ensures |s| <= n <= 2 * |s|
  {
    if s == [] then 0
    else (if s[0] as int >= 0x10000 then 2 else 1) + ComprimentoUtf16(s[1..])
  }

  /** Ascending order of names: lexicographic by code point, a prefix first.
      This is a binary collation; the column's case-insensitive default
      collation is not modelled. */
  predicate NomeLe(a: string, b: string)
    decreases |a|
  {
    |a| == 0 || (|b| > 0 && (a[0] < b[0] || (a[0] == b[0] && NomeLe(a[1..], b[1..]))))
  }

  lemma {:induction false} NomeLeReflexiva(a: string)
    ensures NomeLe(a, a)
    decreases |a|
  {
    if |a| > 0 { NomeLeReflexiva(a[1..]); }
  }

  lemma {:induction false} NomeLeTotal(a: string, b: string)
    ensures NomeLe(a, b) || NomeLe(b, a)
    decreases |a|
  {
    if |a| > 0 && |b| > 0 && a[0] == b[0] { NomeLeTotal(a[1..], b[1..]); }
  }

  lemma {:induction false} NomeLeTransitiva(a: string, b: string, c: string)
    requires NomeLe(a, b) && NomeLe(b, c)
    ensures NomeLe(a, c)
    decreases |a|
  {
    if |a| > 0 && a[0] == b[0] && b[0] == c[0] { NomeLeTransitiva(a[1..], b[1..], c[1..]); }
  }

  /** Two names each before the other are the same name. */
  lemma {:induction false} NomeLeAntissimetrica(a: string, b: string)
    requires NomeLe(a, b) && NomeLe(b, a)
    ensures a == b
    decreases |a|
  {
    if |a| > 0 {
      NomeLeAntissimetrica(a[1..], b[1..]);
      assert a == [a[0]] + a[1..] && b == [b[0]] + b[1..];
    }
  }
}
