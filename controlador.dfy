/**
 * The customer controller of controllers/ClienteController.js. Each operation
 * runs its checks in a fixed order, returns early with the first one that
 * fails, and turns every failure thrown by the table into a 500 answer; a
 * response carries a status code, a message, the `erro` flag and a payload.
 */
module Controlador {
  import opened Opcional
  import opened Texto
  import opened Validacao
  import opened Identificador
  import opened Persistencia

  /** The payload beside `status_code`, `message` and `erro`. */
  datatype Corpo =
    | SemCorpo
    | ComErros(erros: seq<string>)
    | ComCliente(cliente: Cliente)
    | ComLista(total: int, clientes: seq<Cliente>)
    | ComDeletado(deletado: Cliente)

  datatype Resposta = Resposta(status: int, mensagem: string, erro: bool, corpo: Corpo)

  const Json: string := "application/json"

  const Interno: Resposta := Resposta(500, "Erro interno do servidor", true, SemCorpo)
  const TipoInvalido: Resposta := Resposta(415, "Content-Type deve ser application/json", true, SemCorpo)
  const IdInvalido: Resposta := Resposta(400, "ID deve ser um número válido maior que zero", true, SemCorpo)
  const NaoEncontrado: Resposta := Resposta(404, "Cliente não encontrado", true, SemCorpo)
  const EmailDuplicado: Resposta := Resposta(409, "Email já está cadastrado", true, SemCorpo)
  const EmailDeOutroCliente: Resposta := Resposta(409, "Email já está cadastrado por outro cliente", true, SemCorpo)

  function Invalidos(erros: seq<string>): Resposta {
    Resposta(400, "Dados inválidos", true, ComErros(erros))
  }

  function Criado(c: Cliente): Resposta {
    Resposta(201, "Cliente criado com sucesso", false, ComCliente(c))
  }

  function Listados(total: int, clientes: seq<Cliente>): Resposta {
    Resposta(200, "Clientes listados com sucesso", false, ComLista(total, clientes))
  }

  function Encontrado(c: Cliente): Resposta {
    Resposta(200, "Cliente encontrado com sucesso", false, ComCliente(c))
  }

  function Atualizado(c: Cliente): Resposta {
    Resposta(200, "Cliente atualizado com sucesso", false, ComCliente(c))
  }

  function Deletado(c: Cliente): Resposta {
    Resposta(200, "Cliente deletado com sucesso", false, ComDeletado(c))
  }

  /** `erro` is false exactly on the success codes 200 and 201. */
  predicate Coerente(r: Resposta) {
    r.erro <==> !(r.status == 200 || r.status == 201)
  }

  /** `criarCliente`: content type, then validation, then the email lookup,
      then the insert. Only a 201 changes the table, by exactly the row it
      returns. */
  method CriarCliente(t: Tabela, d: Dados, contentType: string) returns (r: Resposta)
    requires t.Valid()
    modifies t
    ensures t.Valid() && Coerente(r)
    ensures r.status != 201 ==> t.rows == old(t.rows) && t.nextId == old(t.nextId)
    ensures contentType != Json ==> r == TipoInvalido
    ensures contentType == Json && ValidarDados(d) != [] ==> r == Invalidos(ValidarDados(d))
    ensures contentType == Json && ValidarDados(d) == [] && EmailEmUso(old(t.rows), Minusculas(d.email.value)) ==>
      r == EmailDuplicado || r == Interno
    ensures contentType == Json && ValidarDados(d) == [] && !EmailEmUso(old(t.rows), Minusculas(d.email.value)) ==>
      r == Interno || r.status == 201
    ensures r.status == 201 ==>
      (r.corpo.ComCliente? && r == Criado(r.corpo.cliente)
       && Linha(old(t.nextId), d) == Some(r.corpo.cliente)
       && r.corpo.cliente.email == Minusculas(d.email.value)
       && r.corpo.cliente.id !in old(t.rows)
       && t.rows == old(t.rows)[r.corpo.cliente.id := r.corpo.cliente] && t.nextId == old(t.nextId) + 1)
  {
    if contentType != Json {
      return TipoInvalido;
    }
    var erros := ValidarDados(d);
    if |erros| > 0 {
      return Invalidos(erros);
    }
    var existente := t.BuscarPorEmail(d.email.value);
    if existente.Err? {
      return Interno;
    }
    if existente.valor.Some? {
      return EmailDuplicado;
    }
    EmailValidoSemTrim(d.email.value);
    var novo := t.Criar(d);
    if novo.Err? {
      return Interno;
    }
    r := Criado(novo.valor);
  }

  /** `listarClientes`: every row in ascending order of name, with `total`
      equal to the number of rows. */
  method ListarClientes(t: Tabela) returns (r: Resposta)
    requires t.Valid()
    ensures Coerente(r)
    ensures r == Interno || (r.corpo.ComLista? && r == Listados(|t.rows|, r.corpo.clientes))
    ensures r.corpo.ComLista? ==> Listagem(r.corpo.clientes, t.rows) && r.corpo.total == |r.corpo.clientes|
  {
    var clientes := t.ListarTodos();
    if clientes.Err? {
      return Interno;
    }
    var total := t.ContarTotal();
    if total.Err? {
      return Interno;
    }
    r := Listados(total.valor, clientes.valor);
  }

  /** `buscarCliente`: 400 for an invalid id before the table is read, then
      the row with that id or 404. */
  method BuscarCliente(t: Tabela, id: string) returns (r: Resposta)
    ensures Coerente(r)
    ensures ParseId(id).None? ==> r == IdInvalido
    ensures ParseId(id).Some? && ParseId(id).value in t.rows ==>
      r == Encontrado(t.rows[ParseId(id).value]) || r == Interno
    ensures ParseId(id).Some? && ParseId(id).value !in t.rows ==> r == NaoEncontrado || r == Interno
  {
    var pid := ParseId(id);
    if pid.None? {
      return IdInvalido;
    }
    var cliente := t.BuscarPorId(pid.value);
    if cliente.Err? {
      return Interno;
    }
    if cliente.valor.None? {
      return NaoEncontrado;
    }
    r := Encontrado(cliente.valor.value);
  }

  /** `atualizarCliente`: content type, id, existence, validation and email
      ownership, in that order; then the rewrite and a re-read of the row.
      A client that resubmits its own email is never refused. A 500 can come
      after the rewrite was committed, when the re-read fails. */
  method AtualizarCliente(t: Tabela, d: Dados, id: string, contentType: string) returns (r: Resposta)
    requires t.Valid()
    modifies t
    ensures t.Valid() && t.nextId == old(t.nextId) && Coerente(r)
    ensures contentType != Json ==> r == TipoInvalido && t.rows == old(t.rows)
    ensures contentType == Json && ParseId(id).None? ==> r == IdInvalido && t.rows == old(t.rows)
    ensures contentType == Json && ParseId(id).Some? ==>
      var n := ParseId(id).value;
      && (n !in old(t.rows) ==> (r == NaoEncontrado || r == Interno) && t.rows == old(t.rows))
      && (n in old(t.rows) && ValidarDados(d) != [] ==>
            (r == Invalidos(ValidarDados(d)) || r == Interno) && t.rows == old(t.rows))
      && (n in old(t.rows) && ValidarDados(d) == [] && EmailDeOutro(old(t.rows), Minusculas(d.email.value), n) ==>
            (r == EmailDeOutroCliente || r == Interno) && t.rows == old(t.rows))
      && (n in old(t.rows) && ValidarDados(d) == [] && !EmailDeOutro(old(t.rows), Minusculas(d.email.value), n) ==>
            Linha(n, d).Some?
            && ((r == Atualizado(Linha(n, d).value) && t.rows == old(t.rows)[n := Linha(n, d).value])
                || (r == Interno && (t.rows == old(t.rows) || t.rows == old(t.rows)[n := Linha(n, d).value]))))
    ensures (ParseId(id).Some? && ParseId(id).value in old(t.rows) && d.email.Some?
             && old(t.rows)[ParseId(id).value].email == Minusculas(d.email.value)) ==> r.status != 409
  {
    if contentType != Json {
      return TipoInvalido;
    }
    var pid := ParseId(id);
    if pid.None? {
      return IdInvalido;
    }
    var n := pid.value;
    var existente := t.BuscarPorId(n);
    if existente.Err? {
      return Interno;
    }
    if existente.valor.None? {
      return NaoEncontrado;
    }
    UnicoDono(t.rows, t.nextId, n);
    var erros := ValidarDados(d);
    if |erros| > 0 {
      return Invalidos(erros);
    }
    var comEmail := t.BuscarPorEmail(d.email.value);
    if comEmail.Err? {
      return Interno;
    }
    if comEmail.valor.Some? && comEmail.valor.value.id != n {
      return EmailDeOutroCliente;
    }
    EmailValidoSemTrim(d.email.value);
    var sucesso := t.Atualizar(n, d);
    if sucesso.Err? {
      return Interno;
    }
    if !sucesso.valor {
      // "Cliente não encontrado para atualização": the row was found above.
      assert false;
    }
    var atualizado := t.BuscarPorId(n);
    if atualizado.Err? {
      return Interno;
    }
    if atualizado.valor.None? {
      assert false;
    }
    r := Atualizado(atualizado.valor.value);
  }

  /** `deletarCliente`: 400 for an invalid id, 404 for a missing row, and on
      success the row as it was read before it was removed. */
  method DeletarCliente(t: Tabela, id: string) returns (r: Resposta)
    requires t.Valid()
    modifies t
    ensures t.Valid() && t.nextId == old(t.nextId) && Coerente(r)
    ensures ParseId(id).None? ==> r == IdInvalido && t.rows == old(t.rows)
    ensures ParseId(id).Some? && ParseId(id).value !in old(t.rows) ==>
      (r == NaoEncontrado || r == Interno) && t.rows == old(t.rows)
    ensures ParseId(id).Some? && ParseId(id).value in old(t.rows) ==>
      var n := ParseId(id).value;
      (r == Deletado(old(t.rows)[n]) && t.rows == old(t.rows) - {n})
      || (r == Interno && t.rows == old(t.rows))
  {
    var pid := ParseId(id);
    if pid.None? {
      return IdInvalido;
    }
    var n := pid.value;
    var existente := t.BuscarPorId(n);
    if existente.Err? {
      return Interno;
    }
    if existente.valor.None? {
      return NaoEncontrado;
    }
    var sucesso := t.Deletar(n);
    if sucesso.Err? {
      return Interno;
    }
    if !sucesso.valor {
      // "Cliente não encontrado para exclusão": the row was found above.
      assert false;
    }
    r := Deletado(existente.valor.value);
  }
}
