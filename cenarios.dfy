/**
 * Sequences of controller calls on one table, as a client issues them, and
 * what the contracts of the single calls give for the sequence.
 */
module Cenarios {
  import opened Opcional
  import opened Texto
  import opened Validacao
  import opened Identificador
  import opened Persistencia
  import opened Controlador

  /** A client created with 201 is found under its id written in decimal. */
  method CriarEBuscar(t: Tabela, d: Dados) returns (criado: Resposta, lido: Resposta)
    requires t.Valid()
    modifies t
    ensures criado.status == 201 ==>
      criado.corpo.ComCliente? && (lido == Encontrado(criado.corpo.cliente) || lido == Interno)
  {
    criado := CriarCliente(t, d, Json);
    if criado.status == 201 {
      ParseIdDecimal(criado.corpo.cliente.id);
      lido := BuscarCliente(t, Decimal(criado.corpo.cliente.id));
    } else {
      lido := Interno;
    }
  }

  /** Creating the same body twice: once it was created, the second attempt
      is refused as a duplicate (or fails). */
  method CriarDuasVezes(t: Tabela, d: Dados) returns (primeiro: Resposta, segundo: Resposta)
    requires t.Valid()
    modifies t
    ensures primeiro.status == 201 ==> segundo == EmailDuplicado || segundo == Interno
    ensures primeiro.status == 201 ==> |t.rows| == |old(t.rows)| + 1
  {
    primeiro := CriarCliente(t, d, Json);
    segundo := CriarCliente(t, d, Json);
    if primeiro.status == 201 {
      assert old(t.rows)[primeiro.corpo.cliente.id := primeiro.corpo.cliente].Keys
        == old(t.rows).Keys + {primeiro.corpo.cliente.id};
    }
  }

  /** After a successful delete the id is no longer found. */
  method DeletarEBuscar(t: Tabela, id: string) returns (excluido: Resposta, lido: Resposta)
    requires t.Valid()
    modifies t
    ensures excluido.status == 200 ==> lido == NaoEncontrado || lido == Interno
  {
    excluido := DeletarCliente(t, id);
    lido := BuscarCliente(t, id);
  }

  /** A successful update is seen by the next read. */
  method AtualizarEBuscar(t: Tabela, d: Dados, id: string) returns (atualizado: Resposta, lido: Resposta)
    requires t.Valid()
    modifies t
    ensures atualizado.status == 200 ==> lido == atualizado.(mensagem := "Cliente encontrado com sucesso") || lido == Interno
  {
    atualizado := AtualizarCliente(t, d, id, Json);
    lido := BuscarCliente(t, id);
  }

  /** Two reads with nothing in between answer alike unless one fails. */
  method BuscarDuasVezes(t: Tabela, id: string) returns (a: Resposta, b: Resposta)
    ensures a == Interno || b == Interno || a == b
  {
    a := BuscarCliente(t, id);
    b := BuscarCliente(t, id);
  }
}
