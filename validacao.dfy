/**
 * The customer validator of models/Cliente.js: `validarEmail`, the regular
 * expression `^[^\s@]+@[^\s@]+\.[^\s@]+$`, and `validarDados`, which checks
 * name, email and phone independently and collects one message per failing
 * field.
 */
module Validacao {
  import opened Opcional
  import opened Texto

  /** A request body as the validator sees it: each field may be absent. */
  datatype Dados = Dados(nome: Option<string>, email: Option<string>, telefone: Option<string>)

  const MsgNome: string := "Nome é obrigatório e deve ter pelo menos 2 caracteres"
  const MsgEmail: string := "Email é obrigatório e deve ter formato válido"
  const MsgTelefone: string := "Telefone é obrigatório e deve ter pelo menos 10 caracteres"

  /** The regular-expression class `[^\s@]`. */
  predicate NaClasse(c: char) {
    !EhEspaco(c) && c != '@'
  }

  /** `[^\s@]+`: a non-empty run of characters of that class. */
  predicate Mais(s: string) {
    |s| > 0 && forall k :: 0 <= k < |s| ==> NaClasse(s[k])
  }

  /** `validarEmail`: the anchored regular expression matches when the string
      splits at an '@' (index i) and a later '.' (index j) into three
      non-empty runs of `[^\s@]`. */
  predicate ValidarEmail(e: string) {
    exists i, j | 0 < i < |e| && i + 1 < j < |e| - 1 :: Partes(e, i, j)
  }

  /** e splits at the '@' at index i and the '.' at index j as the regular
      expression requires. */
  predicate Partes(e: string, i: int, j: int) {
    && 0 < i < |e| && i + 1 < j < |e| - 1
    && e[i] == '@' && e[j] == '.' && Mais(e[..i]) && Mais(e[i + 1..j]) && Mais(e[j + 1..])
  }

  /** How many times c occurs in s. */
  function Conta(s: string, c: char): nat {
    if s == [] then 0 else (if s[0] == c then 1 else 0) + Conta(s[1..], c)
  }

  lemma {:induction false} ContaConcat(a: string, b: string, c: char)
    ensures Conta(a + b, c) == Conta(a, c) + Conta(b, c)
    decreases |a|
  {
    if a == [] {
      assert a + b == b;
    } else {
      assert (a + b)[0] == a[0];
      assert (a + b)[1..] == a[1..] + b;
      ContaConcat(a[1..], b, c);
    }
  }

  lemma {:induction false} ContaZero(s: string, c: char)
    ensures Conta(s, c) == 0 <==> forall k :: 0 <= k < |s| ==> s[k] != c
    decreases |s|
  {
    if s != [] {
      ContaZero(s[1..], c);
      assert forall k :: 1 <= k < |s| ==> s[k] == s[1..][k - 1];
    }
  }

  lemma ContaDivide(s: string, i: nat, c: char)
    requires i < |s|
    ensures Conta(s, c) == Conta(s[..i], c) + (if s[i] == c then 1 else 0) + Conta(s[i + 1..], c)
  {
    assert s == s[..i] + ([s[i]] + s[i + 1..]);
    ContaConcat(s[..i], [s[i]] + s[i + 1..], c);
    ContaConcat([s[i]], s[i + 1..], c);
  }

  /** The structural reading of `validarEmail` used below: no whitespace,
      exactly one '@', not in first position, and a '.' after it with at least
      one character on each side of the '.'. */
  ghost predicate FormaEmail(e: string) {
    SemEspacos(e) && Conta(e, '@') == 1 &&
    exists i, j :: 0 < i && i + 1 < j < |e| - 1 && e[i] == '@' && e[j] == '.'
  }

  lemma EmailTemForma(e: string)
    requires ValidarEmail(e)
    ensures FormaEmail(e)
  {
    var i, j :| 0 < i < |e| && i + 1 < j < |e| - 1 && Partes(e, i, j);
    PartesNaClasse(e, i, j);
    ContaDivide(e, i, '@');
    ContaZero(e[..i], '@');
    ContaZero(e[i + 1..], '@');
    assert Conta(e[..i], '@') == 0 && Conta(e[i + 1..], '@') == 0;
  }

  /** Outside the '@' at i, every character of a split email is in `[^\s@]`. */
  lemma PartesNaClasse(e: string, i: int, j: int)
    requires Partes(e, i, j)
    ensures forall k :: 0 <= k < |e| ==> !EhEspaco(e[k]) && (k != i ==> e[k] != '@')
  {
    forall k | 0 <= k < |e| ensures !EhEspaco(e[k]) && (k != i ==> e[k] != '@') {
      if k < i { assert e[k] == e[..i][k]; }
      else if i < k < j { assert e[k] == e[i + 1..j][k - i - 1]; }
      else if k > j { assert e[k] == e[j + 1..][k - j - 1]; }
    }
  }

  lemma FormaEhEmail(e: string)
    requires FormaEmail(e)
    ensures ValidarEmail(e)
  {
    var i, j :| 0 < i && i + 1 < j < |e| - 1 && e[i] == '@' && e[j] == '.';
    ContaDivide(e, i, '@');
    ContaZero(e[..i], '@');
    ContaZero(e[i + 1..], '@');
    forall k | 0 <= k < |e| && k != i ensures NaClasse(e[k]) {
      if k < i { assert e[k] == e[..i][k]; } else { assert e[k] == e[i + 1..][k - i - 1]; }
    }
    MaisFatia(e, 0, i);
    MaisFatia(e, i + 1, j);
    MaisFatia(e, j + 1, |e|);
    assert e[..i] == e[0..i] && e[j + 1..] == e[j + 1..|e|];
    assert Partes(e, i, j);
  }

  lemma MaisFatia(e: string, a: nat, b: nat)
    requires a < b <= |e|
    requires forall k :: a <= k < b ==> NaClasse(e[k])
    ensures Mais(e[a..b])
  {
    forall k | 0 <= k < b - a ensures NaClasse(e[a..b][k]) {
      assert e[a..b][k] == e[a + k];
    }
  }

  /** The strings `validarEmail` accepts are exactly those of that shape. */
  lemma EmailCaracterizacao(e: string)
    ensures ValidarEmail(e) <==> FormaEmail(e)
  {
    if ValidarEmail(e) { EmailTemForma(e); }
    if FormaEmail(e) { FormaEhEmail(e); }
  }

  /** Every email `validarEmail` accepts is left as it is by `trim`, so in
      `criar` and `atualizar` only the lower-casing changes a validated email. */
  lemma EmailValidoSemTrim(e: string)
    requires ValidarEmail(e)
    ensures Trim(e) == e
    ensures Minusculas(Trim(e)) == Minusculas(e)
  {
    EmailCaracterizacao(e);
    TrimSemEspacos(e);
  }

  /** Lower-casing keeps a run of `[^\s@]` such a run. */
  lemma MaisMinusculas(s: string)
    requires Mais(s)
    ensures Mais(Minusculas(s))
  {
    forall k | 0 <= k < |s| ensures NaClasse(Minusculas(s)[k]) {
      MinusculasPreserva(s, k);
    }
  }

  lemma MinusculasFatia(e: string, a: nat, b: nat)
    requires a <= b <= |e|
    ensures Minusculas(e)[a..b] == Minusculas(e[a..b])
  {
  }

  /** Lower-casing an accepted email gives an accepted email: the '@' and
      the '.' stay where they were and the three runs stay runs. */
  lemma EmailMinusculo(e: string)
    requires ValidarEmail(e)
    ensures ValidarEmail(Minusculas(e))
  {
    var i, j :| 0 < i < |e| && i + 1 < j < |e| - 1 && Partes(e, i, j);
    var m := Minusculas(e);
    assert m[i] == '@' && m[j] == '.';
    MinusculasFatia(e, 0, i);
    MinusculasFatia(e, i + 1, j);
    MinusculasFatia(e, j + 1, |e|);
    assert e[..i] == e[0..i] && m[..i] == m[0..i];
    assert e[j + 1..] == e[j + 1..|e|] && m[j + 1..] == m[j + 1..|m|];
    MaisMinusculas(e[..i]);
    MaisMinusculas(e[i + 1..j]);
    MaisMinusculas(e[j + 1..]);
    assert Partes(m, i, j);
  }

  /** `!dados.x` is false: the field is present and not the empty string. */
  predicate Presente(o: Option<string>) {
    o.Some? && o.value != ""
  }

  predicate NomeValido(n: Option<string>) {
    Presente(n) && ComprimentoUtf16(Trim(n.value)) >= 2
  }

  predicate EmailValido(e: Option<string>) {
    Presente(e) && ValidarEmail(e.value)
  }

  predicate TelefoneValido(t: Option<string>) {
    Presente(t) && ComprimentoUtf16(Trim(t.value)) >= 10
  }

  /** The position of a violation message in the validator's fixed order. */
  function Ordem(m: string): nat {
    if m == MsgNome then 0 else if m == MsgEmail then 1 else 2
  }

  /** `validarDados`: all three checks run, and the list holds, in the order
      name, email, phone, exactly one message for each field that fails. */
  function ValidarDados(d: Dados): (erros: seq<string>)
    ensures erros == [] <==> NomeValido(d.nome) && EmailValido(d.email) && TelefoneValido(d.telefone)
    ensures MsgNome in erros <==> !NomeValido(d.nome)
    ensures MsgEmail in erros <==> !EmailValido(d.email)
    ensures MsgTelefone in erros <==> !TelefoneValido(d.telefone)
    ensures forall m :: m in erros ==> m == MsgNome || m == MsgEmail || m == MsgTelefone
    ensures forall i, j :: 0 <= i < j < |erros| ==> Ordem(erros[i]) < Ordem(erros[j])
    ensures |erros| <= 3
  {
    (if !NomeValido(d.nome) then [MsgNome] else [])
    + (if !EmailValido(d.email) then [MsgEmail] else [])
    + (if !TelefoneValido(d.telefone) then [MsgTelefone] else [])
  }

  /** A body that passes validation has all three fields, and its email is a
      string `validarEmail` accepts. */
  lemma ValidoTemCampos(d: Dados)
    requires ValidarDados(d) == []
    ensures d.nome.Some? && d.email.Some? && d.telefone.Some?
    ensures ValidarEmail(d.email.value)
  {
  }

  /** Any three non-empty runs of `[^\s@]` joined by '@' and '.' form an
      email `validarEmail` accepts. */
  lemma EmailMonta(l: string, d: string, t: string)
    requires Mais(l) && Mais(d) && Mais(t)
    ensures ValidarEmail(l + "@" + d + "." + t)
  {
    var e := l + "@" + d + "." + t;
    var i := |l|;
    var j := |l| + 1 + |d|;
    assert e[i] == '@' && e[j] == '.';
    assert e[..i] == l && e[i + 1..j] == d && e[j + 1..] == t;
    assert Partes(e, i, j);
  }

  /** The accepted examples of tests/models/Cliente.test.js,
      "teste@email.com" and "usuario.teste@dominio.com.br". */
  lemma EmailAceitaSimples()
    ensures ValidarEmail("teste" + "@" + "email" + "." + "com")
  {
    EmailMonta("teste", "email", "com");
  }

  lemma EmailAceitaComPontos()
    ensures ValidarEmail("usuario.teste" + "@" + "dominio" + "." + "com.br")
  {
    assert Mais("usuario.teste") && Mais("dominio") && Mais("com.br");
    EmailMonta("usuario.teste", "dominio", "com.br");
  }

  /** A string without '@' is never an email. */
  lemma EmailExigeArroba(e: string)
    requires '@' !in e
    ensures !ValidarEmail(e)
  {
  }

  /** The refused examples of tests/models/Cliente.test.js. */
  lemma EmailRejeitaSemArroba()
    ensures !ValidarEmail("email-sem-arroba")
  {
    EmailExigeArroba("email-sem-arroba");
  }

  lemma EmailRejeitaSemDominio()
    ensures !ValidarEmail("email@")
  {
  }

  /** An email that starts with '@' (such as "@dominio.com") has an empty
      local part and is refused. */
  lemma EmailRejeitaSemLocal(e: string)
    requires |e| > 0 && e[0] == '@'
    ensures !ValidarEmail(e)
  {
    forall i, j | 0 < i < |e| ensures !Partes(e, i, j) {
      assert e[..i][0] == '@';
    }
  }
}
