/**
 * The persistence gateway of models/Cliente.js over the `clientes` table.
 * Each gateway operation is one SQL statement; here the table is a map from
 * id to row plus the next AUTO_INCREMENT value, and every statement may fail
 * for reasons the model does not see (a lost connection, an unknown column),
 * which is a nondeterministic `Err(Falha)` that leaves the table unchanged.
 * The UNIQUE constraint on `email` is the class invariant; an insert or
 * update that would break it fails with ER_DUP_ENTRY, which the gateway
 * reports as "Email já está cadastrado".
 */
module Persistencia {
  import opened Opcional
  import opened Texto
  import opened Validacao
  import opened Mapas

  /** A stored row (the timestamp columns are not modelled). */
  datatype Cliente = Cliente(id: int, nome: string, email: string, telefone: string)

  /** What a gateway operation throws: ER_DUP_ENTRY translated into
      `Error('Email já está cadastrado')`, or any other failure, passed on as
      it is. No message text is carried, because the controller reads none. */
  datatype Erro = EmailJaCadastrado | Falha

  datatype Resultado<+T> = Ok(valor: T) | Err(erro: Erro)

  /** The row that `criar` and `atualizar` write for body d under the given id:
      the three fields trimmed and the email lower-cased. None when a field is
      absent, where `.trim()` throws before any statement is sent. */
  function Linha(id: int, d: Dados): Option<Cliente> {
    if d.nome.Some? && d.email.Some? && d.telefone.Some? then
      Some(Cliente(id, Trim(d.nome.value), Minusculas(Trim(d.email.value)), Trim(d.telefone.value)))
    else
      None
  }

  /** The email of a written row is already lower case. */
  lemma LinhaMinuscula(id: int, d: Dados)
    requires Linha(id, d).Some?
    ensures Minusculas(Linha(id, d).value.email) == Linha(id, d).value.email
  {
    MinusculasIdempotente(Trim(d.email.value));
  }

  /** A body that passes validation is written as a row that passes
      validation again: the normalisation in `criar` and `atualizar` keeps
      the name, the email and the phone valid, and only lower-cases the
      email. */
  lemma LinhaRevalida(id: int, d: Dados)
    requires ValidarDados(d) == []
    ensures Linha(id, d).Some?
    ensures Linha(id, d).value.email == Minusculas(d.email.value)
    ensures var c := Linha(id, d).value;
      ValidarDados(Dados(Some(c.nome), Some(c.email), Some(c.telefone))) == []
  {
    var c := Linha(id, d).value;
    EmailValidoSemTrim(d.email.value);
    EmailMinusculo(d.email.value);
    TrimIdempotente(d.nome.value);
    TrimIdempotente(d.telefone.value);
    assert c.nome != "" && c.telefone != "";
    assert c.email != "";
  }

  /** The UNIQUE constraint on `email`. */
  ghost predicate EmailsUnicos(rows: map<int, Cliente>) {
    forall i, j :: i in rows && j in rows && rows[i].email == rows[j].email ==> i == j
  }

  /** Some row holds this email. */
  predicate EmailEmUso(rows: map<int, Cliente>, email: string) {
    exists k :: k in rows && rows[k].email == email
  }

  /** A row other than `id` holds this email. */
  predicate EmailDeOutro(rows: map<int, Cliente>, email: string, id: int) {
    exists k :: k in rows && k != id && rows[k].email == email
  }

  /** `ORDER BY nome ASC`. */
  predicate OrdenadaPorNome(s: seq<Cliente>) {
    forall i, j :: 0 <= i < j < |s| ==> NomeLe(s[i].nome, s[j].nome)
  }

  /** s lists every row of the table once, in ascending order of name; rows
      with equal names may come in any order. */
  predicate Listagem(s: seq<Cliente>, rows: map<int, Cliente>) {
    multiset(s) == multiset(rows.Values) && OrdenadaPorNome(s)
  }

  /** Inserts c into a sorted sequence. */
  ghost function Insere(c: Cliente, s: seq<Cliente>): (r: seq<Cliente>)
    requires OrdenadaPorNome(s)
    ensures OrdenadaPorNome(r) && multiset(r) == multiset(s) + multiset{c}
    decreases |s|
  {
    if s == [] then
      [c]
    else if NomeLe(c.nome, s[0].nome) then
      AntesDeTodos(c, s);
      [c] + s
    else
      NomeLeTotal(c.nome, s[0].nome);
      var t := Insere(c, s[1..]);
      PrimeiroAntes(s, c, t);
      [s[0]] + t
  }

  /** A row whose name comes before the head of a sorted sequence may lead it. */
  lemma AntesDeTodos(c: Cliente, s: seq<Cliente>)
    requires s != [] && OrdenadaPorNome(s) && NomeLe(c.nome, s[0].nome)
    ensures OrdenadaPorNome([c] + s)
  {
    var u := [c] + s;
    forall i, j | 0 <= i < j < |u| ensures NomeLe(u[i].nome, u[j].nome) {
      assert u[j] == s[j - 1];
      if i == 0 {
        if j > 1 { NomeLeTransitiva(c.nome, s[0].nome, s[j - 1].nome); }
      } else {
        assert u[i] == s[i - 1];
      }
    }
  }

  /** The head of a sorted s may lead the insertion of c into its tail when c
      does not come before it. */
  lemma PrimeiroAntes(s: seq<Cliente>, c: Cliente, t: seq<Cliente>)
    requires s != [] && OrdenadaPorNome(s) && NomeLe(s[0].nome, c.nome)
    requires OrdenadaPorNome(t) && multiset(t) == multiset(s[1..]) + multiset{c}
    ensures OrdenadaPorNome([s[0]] + t) && multiset([s[0]] + t) == multiset(s) + multiset{c}
  {
    assert s == [s[0]] + s[1..];
    var u := [s[0]] + t;
    forall i, j | 0 <= i < j < |u| ensures NomeLe(u[i].nome, u[j].nome) {
      assert u[j] == t[j - 1];
      if i == 0 {
        var x := t[j - 1];
        assert x in multiset(t);
        if x != c {
          assert x in multiset(s[1..]);
          var m :| 0 <= m < |s[1..]| && s[1..][m] == x;
          assert s[m + 1] == x;
        }
      } else {
        assert u[i] == t[i - 1];
      }
    }
  }

  /** Insertion sort by name. */
  ghost function Ordena(s: seq<Cliente>): (r: seq<Cliente>)
    ensures OrdenadaPorNome(r) && multiset(r) == multiset(s)
    decreases |s|
  {
    if s == [] then
      []
    else
      assert s == [s[0]] + s[1..];
      Insere(s[0], Ordena(s[1..]))
  }

  /** The elements of a finite set, in some order. */
  ghost function SeqDe(S: set<Cliente>): (r: seq<Cliente>)
    ensures multiset(r) == multiset(S)
    decreases |S|
  {
    if S == {} then
      []
    else
      var x :| x in S;
      assert multiset(S) == multiset(S - {x}) + multiset{x};
      [x] + SeqDe(S - {x})
  }

  /** Every table has a listing in name order. */
  lemma ExisteListagem(rows: map<int, Cliente>)
    ensures exists s :: Listagem(s, rows)
  {
    var w := Ordena(SeqDe(rows.Values));
    assert Listagem(w, rows);
  }

  /** No two elements of s with the same name differ. */
  ghost predicate NomesDistintos(s: seq<Cliente>) {
    forall i, j :: 0 <= i < |s| && 0 <= j < |s| && s[i].nome == s[j].nome ==> s[i] == s[j]
  }

  /** The position of x in a sorted s puts s[0]'s name at or before x's. */
  lemma PrimeiroNome(s: seq<Cliente>, x: Cliente)
    requires OrdenadaPorNome(s) && x in s
    ensures NomeLe(s[0].nome, x.nome)
  {
    var m :| 0 <= m < |s| && s[m] == x;
    if m == 0 { NomeLeReflexiva(x.nome); }
  }

  /** Two sorted sequences with the same elements, no two of which share a
      name, start with the same element. */
  lemma MesmoPrimeiro(a: seq<Cliente>, b: seq<Cliente>)
    requires a != [] && b != [] && multiset(a) == multiset(b) && OrdenadaPorNome(a) && OrdenadaPorNome(b)
    requires NomesDistintos(a)
    ensures a[0] == b[0]
  {
    assert a[0] in multiset(b) && b[0] in multiset(a);
    assert a[0] in b && b[0] in a;
    var m :| 0 <= m < |a| && a[m] == b[0];
    PrimeiroNome(b, a[0]);
    PrimeiroNome(a, b[0]);
    NomeLeAntissimetrica(a[0].nome, b[0].nome);
  }

  /** The tail of a sorted sequence is sorted and holds the other elements. */
  lemma Cauda(s: seq<Cliente>)
    requires s != [] && OrdenadaPorNome(s)
    ensures OrdenadaPorNome(s[1..])
    ensures multiset(s) == multiset{s[0]} + multiset(s[1..])
    ensures NomesDistintos(s) ==> NomesDistintos(s[1..])
  {
    assert s == [s[0]] + s[1..];
    if NomesDistintos(s) {
      forall i, j | 0 <= i < |s| - 1 && 0 <= j < |s| - 1 && s[1..][i].nome == s[1..][j].nome
        ensures s[1..][i] == s[1..][j]
      {
        assert s[1..][i] == s[i + 1] && s[1..][j] == s[j + 1];
      }
    }
  }

  /** Removing the same first element from two sequences with the same
      elements leaves the same elements. */
  lemma CaudasIguais(a: seq<Cliente>, b: seq<Cliente>)
    requires a != [] && b != [] && a[0] == b[0] && multiset(a) == multiset(b)
    ensures multiset(a[1..]) == multiset(b[1..])
  {
    assert a == [a[0]] + a[1..] && b == [b[0]] + b[1..];
    assert multiset(a) == multiset{a[0]} + multiset(a[1..]);
    assert multiset(b) == multiset{a[0]} + multiset(b[1..]);
    assert multiset(a[1..]) == multiset(a) - multiset{a[0]};
    assert multiset(b[1..]) == multiset(b) - multiset{a[0]};
  }

  /** Two sorted sequences with the same elements, no two of which share a
      name, are equal. */
  lemma {:induction false} OrdenadasIguais(a: seq<Cliente>, b: seq<Cliente>)
    requires multiset(a) == multiset(b) && OrdenadaPorNome(a) && OrdenadaPorNome(b)
    requires NomesDistintos(a)
    ensures a == b
    decreases |a|
  {
    assert |a| == |multiset(a)| == |multiset(b)| == |b|;
    if a != [] {
      MesmoPrimeiro(a, b);
      Cauda(a);
      Cauda(b);
      CaudasIguais(a, b);
      OrdenadasIguais(a[1..], b[1..]);
      assert a == [a[0]] + a[1..] && b == [b[0]] + b[1..];
    }
  }

  /** When no two rows share a name, the table has exactly one listing, so
      `listarTodos` is determined by the table. */
  lemma ListagemUnica(s1: seq<Cliente>, s2: seq<Cliente>, rows: map<int, Cliente>)
    requires forall i, j :: i in rows && j in rows && rows[i].nome == rows[j].nome ==> i == j
    requires Listagem(s1, rows) && Listagem(s2, rows)
    ensures s1 == s2
  {
    forall a, b | 0 <= a < |s1| && 0 <= b < |s1| && s1[a].nome == s1[b].nome ensures s1[a] == s1[b] {
      assert s1[a] in multiset(rows.Values) && s1[b] in multiset(rows.Values);
      var i := ChaveDe(rows, s1[a]);
      var j := ChaveDe(rows, s1[b]);
    }
    OrdenadasIguais(s1, s2);
  }

  /** A listing holds exactly as many rows as the table: what `listarTodos`
      returns has the length `contarTotal` reports. */
  lemma ListagemTamanho(s: seq<Cliente>, rows: map<int, Cliente>)
    requires forall k :: k in rows ==> rows[k].id == k
    requires Listagem(s, rows)
    ensures |s| == |rows|
  {
    forall i, j | i in rows && j in rows && rows[i] == rows[j] ensures i == j {
      assert rows[i].id == rows[j].id;
    }
    ValoresInjetivos(rows);
    assert |multiset(s)| == |s|;
    assert |multiset(rows.Values)| == |rows.Values|;
  }

  /** Ids are positive, below the next AUTO_INCREMENT value and stored in
      their row; stored emails are lower case; emails are unique. */
  ghost predicate Invariante(rows: map<int, Cliente>, nextId: int) {
    && 1 <= nextId
    && (forall k :: k in rows ==> 1 <= k < nextId && rows[k].id == k)
    && (forall k :: k in rows ==> Minusculas(rows[k].email) == rows[k].email)
    && EmailsUnicos(rows)
  }

  /** Inserting a lower-case, unused email under the next id keeps the invariant. */
  lemma InvarianteInsere(rows: map<int, Cliente>, nextId: int, c: Cliente)
    requires Invariante(rows, nextId)
    requires c.id == nextId && Minusculas(c.email) == c.email && !EmailEmUso(rows, c.email)
    ensures Invariante(rows[c.id := c], nextId + 1)
  {
    var novo := rows[c.id := c];
    forall i, j | i in novo && j in novo && novo[i].email == novo[j].email ensures i == j {
      if i != c.id && j != c.id { assert rows[i].email == rows[j].email; }
    }
  }

  /** Rewriting row c.id with a lower-case email no other row holds keeps the invariant. */
  lemma InvarianteReescreve(rows: map<int, Cliente>, nextId: int, c: Cliente)
    requires Invariante(rows, nextId)
    requires c.id in rows && Minusculas(c.email) == c.email && !EmailDeOutro(rows, c.email, c.id)
    ensures Invariante(rows[c.id := c], nextId)
  {
    var novo := rows[c.id := c];
    forall i, j | i in novo && j in novo && novo[i].email == novo[j].email ensures i == j {
      if i != c.id && j != c.id { assert rows[i].email == rows[j].email; }
    }
  }

  lemma InvarianteRemove(rows: map<int, Cliente>, nextId: int, id: int)
    requires Invariante(rows, nextId)
    ensures Invariante(rows - {id}, nextId)
  {
  }

  /** Under the UNIQUE constraint the row that holds an email is its only
      holder: no other row has it. */
  lemma UnicoDono(rows: map<int, Cliente>, nextId: int, k: int)
    requires Invariante(rows, nextId) && k in rows
    ensures !EmailDeOutro(rows, rows[k].email, k)
  {
  }

  /** The `clientes` table. */
  class Tabela {
    var rows: map<int, Cliente>
    var nextId: int

    /** Ids are positive, below the next AUTO_INCREMENT value and stored in
        their row; stored emails are lower case; emails are unique. */
    ghost predicate Valid()
      reads this
    {
      Invariante(rows, nextId)
    }

    /** `CREATE TABLE`: an empty table. */
    constructor ()
      ensures Valid() && rows == map[] && nextId == 1
    {
      rows := map[];
      nextId := 1;
    }

    /** `criar`: inserts one row under a fresh id holding the trimmed name,
        the trimmed lower-cased email and the trimmed phone, and returns it.
        An email already stored is refused as a duplicate; no other row
        changes, and a failure changes nothing. */
    method Criar(d: Dados) returns (r: Resultado<Cliente>)
      requires Valid()
      modifies this
      ensures Valid()
      ensures r.Err? ==> rows == old(rows) && nextId == old(nextId)
      ensures Linha(old(nextId), d).None? ==> r == Err(Falha)
      ensures r.Ok? ==>
        (Linha(old(nextId), d) == Some(r.valor) && r.valor.id !in old(rows)
         && !EmailEmUso(old(rows), r.valor.email)
         && rows == old(rows)[r.valor.id := r.valor] && nextId == old(nextId) + 1)
      ensures r == Err(EmailJaCadastrado) ==>
        Linha(old(nextId), d).Some? && EmailEmUso(old(rows), Linha(old(nextId), d).value.email)
      ensures Linha(old(nextId), d).Some? && EmailEmUso(old(rows), Linha(old(nextId), d).value.email) ==> r.Err?
      ensures Linha(old(nextId), d).Some? && !EmailEmUso(old(rows), Linha(old(nextId), d).value.email) ==>
        r.Ok? || r == Err(Falha)
    {
      var linha := Linha(nextId, d);
      if linha.None? {
        return Err(Falha);
      }
      var falhou: bool := *;
      if falhou {
        return Err(Falha);
      }
      var c := linha.value;
      if EmailEmUso(rows, c.email) {
        return Err(EmailJaCadastrado);
      }
      LinhaMinuscula(nextId, d);
      InvarianteInsere(rows, nextId, c);
      rows := rows[c.id := c];
      nextId := nextId + 1;
      r := Ok(c);
    }

    /** `listarTodos`: every row once, in ascending order of name. */
    method ListarTodos() returns (r: Resultado<seq<Cliente>>)
      requires Valid()
      ensures r.Ok? ==> Listagem(r.valor, rows) && |r.valor| == |rows|
      ensures r.Err? ==> r.erro == Falha
    {
      var falhou: bool := *;
      if falhou {
        return Err(Falha);
      }
      ExisteListagem(rows);
      var s :| Listagem(s, rows);
      ListagemTamanho(s, rows);
      r := Ok(s);
    }

    /** `buscarPorId`: the row with this id, or null when there is none. */
    method BuscarPorId(id: int) returns (r: Resultado<Option<Cliente>>)
      ensures r.Ok? && r.valor.Some? ==> id in rows && r.valor.value == rows[id]
      ensures r.Ok? && r.valor.None? ==> id !in rows
      ensures r.Err? ==> r.erro == Falha
    {
      var falhou: bool := *;
      if falhou {
        return Err(Falha);
      }
      if id in rows {
        r := Ok(Some(rows[id]));
      } else {
        r := Ok(None);
      }
    }

    /** `buscarPorEmail`: the row holding the lower-cased email, or null. */
    method BuscarPorEmail(email: string) returns (r: Resultado<Option<Cliente>>)
      requires Valid()
      ensures r.Ok? && r.valor.Some? ==>
        r.valor.value.id in rows && rows[r.valor.value.id] == r.valor.value
        && r.valor.value.email == Minusculas(email)
      ensures r.Ok? && r.valor.None? ==> !EmailEmUso(rows, Minusculas(email))
      ensures r.Err? ==> r.erro == Falha
    {
      var falhou: bool := *;
      if falhou {
        return Err(Falha);
      }
      var e := Minusculas(email);
      if EmailEmUso(rows, e) {
        var k :| k in rows && rows[k].email == e;
        r := Ok(Some(rows[k]));
      } else {
        r := Ok(None);
      }
    }

    /** `atualizar`: rewrites the row with this id and answers whether one
        existed (`affectedRows > 0`). Giving the row an email another row
        holds is refused as a duplicate. Only that row changes; on false or
        on a failure nothing changes. */
    method Atualizar(id: int, d: Dados) returns (r: Resultado<bool>)
      requires Valid()
      modifies this
      ensures Valid() && nextId == old(nextId)
      ensures r.Err? || r == Ok(false) ==> rows == old(rows)
      ensures r.Ok? ==> (r.valor <==> id in old(rows))
      ensures r == Ok(true) ==>
        (Linha(id, d).Some? && !EmailDeOutro(old(rows), Linha(id, d).value.email, id)
         && rows == old(rows)[id := Linha(id, d).value])
      ensures r == Err(EmailJaCadastrado) ==>
        id in old(rows) && Linha(id, d).Some? && EmailDeOutro(old(rows), Linha(id, d).value.email, id)
      ensures Linha(id, d).None? ==> r == Err(Falha)
      ensures id in old(rows) && Linha(id, d).Some? && EmailDeOutro(old(rows), Linha(id, d).value.email, id) ==> r.Err?
      ensures Linha(id, d).Some? && !(id in old(rows) && EmailDeOutro(old(rows), Linha(id, d).value.email, id)) ==>
        r.Ok? || r == Err(Falha)
    {
      var linha := Linha(id, d);
      if linha.None? {
        return Err(Falha);
      }
      var falhou: bool := *;
      if falhou {
        return Err(Falha);
      }
      if id !in rows {
        return Ok(false);
      }
      var c := linha.value;
      if EmailDeOutro(rows, c.email, id) {
        return Err(EmailJaCadastrado);
      }
      LinhaMinuscula(id, d);
      InvarianteReescreve(rows, nextId, c);
      rows := rows[id := c];
      r := Ok(true);
    }

    /** `deletar`: removes the row with this id and answers whether one
        existed; nothing else changes. */
    method Deletar(id: int) returns (r: Resultado<bool>)
      requires Valid()
      modifies this
      ensures Valid() && nextId == old(nextId)
      ensures r.Err? ==> r.erro == Falha && rows == old(rows)
      ensures r.Ok? ==> (r.valor <==> id in old(rows)) && rows == old(rows) - {id}
    {
      var falhou: bool := *;
      if falhou {
        return Err(Falha);
      }
      r := Ok(id in rows);
      InvarianteRemove(rows, nextId, id);
      rows := rows - {id};
    }

    /** `contarTotal`: the number of rows. */
    method ContarTotal() returns (r: Resultado<int>)
      ensures r.Ok? ==> r.valor == |rows|
      ensures r.Err? ==> r.erro == Falha
    {
      var falhou: bool := *;
      if falhou {
        return Err(Falha);
      }
      r := Ok(|rows|);
    }
  }
}
