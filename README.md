# Customer records API: validator, gateway and controller in Dafny

This project models the core of a small customer-records API. That core is two files.

- `models/Cliente.js` holds the validator and the persistence gateway of the `clientes` table.
  - `validarDados` collects one message per invalid field.
  - `validarEmail` is the regular expression `^[^\s@]+@[^\s@]+\.[^\s@]+$`.
  - The seven gateway operations are `criar`, `listarTodos`, `buscarPorId`, `buscarPorEmail`, `atualizar`, `deletar` and `contarTotal`.
- `controllers/ClienteController.js` holds the controller: `criarCliente`, `listarClientes`, `buscarCliente`, `atualizarCliente` and `deletarCliente`.
  - Each runs its checks in a fixed order with early returns.
  - Each answers `{status_code, message, erro, payload}`.
  - Each turns any failure thrown by the gateway into 500.

Layout, one module per file:

| file | module | contents |
|---|---|---|
| `opcional.dfy` | `Opcional` | `Option`: a JSON field that may be absent, or a query with no row |
| `texto.dfy` | `Texto` | the JavaScript string operations the core relies on (see below) |
| `validacao.dfy` | `Validacao` | the request body `Dados`, `ValidarEmail`, `ValidarDados` |
| `identificador.dfy` | `Identificador` | the controller's id test as a parser of the route parameter |
| `mapas.dfy` | `Mapas` | a cardinality fact about finite maps |
| `persistencia.dfy` | `Persistencia` | the row `Cliente`, the written row `Linha`, the class `Tabela` with the gateway methods |
| `controlador.dfy` | `Controlador` | the response `Resposta` and the five controller methods |
| `cenarios.dfy` | `Cenarios` | sequences of controller calls on one table |

`Texto` models these JavaScript operations:
- `trim`;
- the regular-expression class `\s`, with the full ECMAScript whitespace and line-terminator set;
- `toLowerCase`;
- `length`, counted in UTF-16 code units.

It also holds the ascending name order of the SQL clause `ORDER BY nome`, taken as code-point lexicographic order (see "Left out" for how this differs from MySQL's default collation).

The table is a class `Tabela`.
- Its fields are `rows: map<int, Cliente>` and the next AUTO_INCREMENT value `nextId`.
- Its invariant `Valid()` says:
  - ids are positive and below `nextId`;
  - every row stores its own id;
  - stored emails are lower case;
  - no two rows share an email, which is the `UNIQUE` column of the DDL.

Every gateway method may fail, for a reason the model does not see (a lost connection, an unknown column). Such a failure is a nondeterministic outcome `Err(Falha)` that changes nothing. A duplicate email is not random: `criar` and `atualizar` report `Err(EmailJaCadastrado)` only when the new row would break the `UNIQUE` invariant, and always then unless the statement fails for another reason (`Err(Falha)`). That error is the translation of ER_DUP_ENTRY into "Email já está cadastrado".

The controller methods take the `Tabela` and report, for every combination of inputs:
- which response comes out;
- which check decided it;
- what the table looks like afterwards.

A 500 answer is always allowed as an alternative, because any gateway call may fail.

Two details of the code that are easy to miss:
- `validarDados` trims the name and the phone before measuring them, but validates the email as submitted (models/Cliente.js:20-28). So an email with surrounding spaces gets 400.
- `buscarPorEmail` lower-cases its argument without trimming it (models/Cliente.js:110). `Validacao.EmailValidoSemTrim` shows that this makes no difference after validation.

## Model

| member | source | states |
|---|---|---|
| Texto.EhEspaco | models/Cliente.js:37 | the characters `\s` matches and `trim` removes: the ECMAScript WhiteSpace and LineTerminator set |
| Texto.Trim | models/Cliente.js:20 | `s.trim()`, as leading whitespace dropped, then trailing whitespace dropped |
| Texto.Minusculas | models/Cliente.js:51 | `s.toLowerCase()`, character by character |
| Texto.TrimInicioSufixo | models/Cliente.js:50 | the leading part `trim` drops is whitespace, and what stays is a suffix that does not start with whitespace |
| Texto.TrimFimPrefixo | models/Cliente.js:50 | the trailing part `trim` drops is whitespace, and what stays is a prefix that does not end with whitespace |
| Texto.TrimInfixo | models/Cliente.js:20 | `trim(s)` is an infix `s[i..j]` with only whitespace outside it and no whitespace at either of its ends |
| Texto.TrimSemEspacos | models/Cliente.js:51 | `trim` leaves a string without whitespace unchanged |
| Texto.TrimIdempotente | models/Cliente.js:50-52 | trimming twice is trimming once |
| Texto.MinusculasIdempotente | models/Cliente.js:51 | lower-casing twice is lower-casing once |
| Texto.MinusculasPreserva | models/Cliente.js:110 | lower-casing neither creates nor removes whitespace, '@' or '.' at any position |
| Texto.ComprimentoUtf16 | models/Cliente.js:20 | `length` in UTF-16 code units lies between the number of code points and twice that |
| Texto.NomeLe | models/Cliente.js:75 | the ascending order of `ORDER BY nome ASC`, as binary code-point lexicographic order with a prefix first (see "Left out") |
| Texto.NomeLeReflexiva | models/Cliente.js:75 | every name is in order with itself |
| Texto.NomeLeTotal | models/Cliente.js:75 | any two names are in order one way or the other |
| Texto.NomeLeTransitiva | models/Cliente.js:75 | the name order is transitive |
| Texto.NomeLeAntissimetrica | models/Cliente.js:75 | two names each in order before the other are equal |
| Validacao.ValidarEmail | models/Cliente.js:36-39 | the regular expression `^[^\s@]+@[^\s@]+\.[^\s@]+$`: a split into a local part, '@', a domain, '.', and a final part, each a non-empty run of `[^\s@]` |
| Validacao.Presente | models/Cliente.js:20 | `!dados.x` is false for a string field: it is present and not the empty string (also lines 24 and 28) |
| Validacao.NomeValido | models/Cliente.js:20 | the name is present and its trimmed `length`, in UTF-16 code units, is at least 2 |
| Validacao.EmailValido | models/Cliente.js:24 | the email is present and, untrimmed, passes `validarEmail` |
| Validacao.TelefoneValido | models/Cliente.js:28 | the phone is present and its trimmed `length`, in UTF-16 code units, is at least 10 |
| Validacao.ValidarDados | models/Cliente.js:17-33 | the message list is empty iff name, email and phone are all valid; it holds each field's message iff that field fails; it holds no other message; messages come in the order name, email, phone; there are at most three |
| Validacao.ValidoTemCampos | models/Cliente.js:17-33 | a body that passes validation has all three fields, and its email passes `validarEmail` |
| Validacao.EmailTemForma | models/Cliente.js:36-39 | an accepted email has no whitespace, exactly one '@' (not first), and a '.' after it with a character on each side |
| Validacao.PartesNaClasse | models/Cliente.js:37 | outside the '@', each character of an accepted email is outside `[\s@]` |
| Validacao.FormaEhEmail | models/Cliente.js:36-39 | every string of that shape is accepted |
| Validacao.EmailCaracterizacao | models/Cliente.js:36-39 | `validarEmail` accepts exactly the strings of that shape (both directions) |
| Validacao.EmailValidoSemTrim | models/Cliente.js:37-51 | `trim` leaves an accepted email unchanged, so only lower-casing changes the email that is stored |
| Validacao.MaisMinusculas | models/Cliente.js:37 | lower-casing keeps a run of `[^\s@]` such a run |
| Validacao.EmailMinusculo | models/Cliente.js:37-51 | the lower-cased form of an accepted email is accepted |
| Validacao.EmailMonta | models/Cliente.js:37 | any three runs of `[^\s@]` joined by '@' and '.' are accepted |
| Validacao.EmailAceitaSimples | tests/models/Cliente.test.js:65-66 | "teste@email.com" is accepted |
| Validacao.EmailAceitaComPontos | tests/models/Cliente.test.js:65-67 | "usuario.teste@dominio.com.br" is accepted |
| Validacao.EmailExigeArroba | models/Cliente.js:37 | a string without '@' is refused |
| Validacao.EmailRejeitaSemArroba | tests/models/Cliente.test.js:70-71 | "email-sem-arroba" is refused |
| Validacao.EmailRejeitaSemDominio | tests/models/Cliente.test.js:70-72 | "email@" is refused |
| Validacao.EmailRejeitaSemLocal | tests/models/Cliente.test.js:70-73 | every string starting with '@' (such as "@dominio.com") is refused |
| Identificador.ParseId | controllers/ClienteController.js:91 | an accepted id is a non-empty digit string with a value of at least 1 |
| Identificador.Valor | controllers/ClienteController.js:91 | `parseInt` on a string of decimal digits: its value, most significant digit first |
| Identificador.ValorDecimal | controllers/ClienteController.js:99 | the decimal notation of n denotes n |
| Identificador.ParseIdDecimal | controllers/ClienteController.js:91-99 | every positive id written in decimal is accepted as that id |
| Identificador.DecimalParseId | controllers/ClienteController.js:91-99 | an accepted id without leading zeros is the decimal notation of its value |
| Identificador.ValorPositivo | controllers/ClienteController.js:91 | digits that do not start with '0' denote a positive number |
| Identificador.ZerosRecusados | controllers/ClienteController.js:91 | "0", "00", ... are refused (`parseInt(id) <= 0`) |
| Identificador.ExemplosId | controllers/ClienteController.js:91 | "", "abc" and "-1" are refused and "1" is accepted as 1 |
| Persistencia.Linha | models/Cliente.js:49-53 | the row `criar` and `atualizar` write (models/Cliente.js:126-131 for `atualizar`): trimmed name, trimmed and lower-cased email, trimmed phone; none when a field is absent |
| Persistencia.LinhaMinuscula | models/Cliente.js:51 | the email of a written row is already lower case |
| Persistencia.LinhaRevalida | models/Cliente.js:49-59 | a body that passes validation yields a row; its email is the lower-cased submitted email; the row (trimmed name, trimmed lower-cased email, trimmed phone) passes validation again |
| Persistencia.OrdenadaPorNome | models/Cliente.js:75 | a sequence of rows is in ascending order of name |
| Persistencia.Listagem | models/Cliente.js:72-79 | what `listarTodos` returns: every row of the table once (as a multiset), in ascending name order, ties in any order |
| Persistencia.ExisteListagem | models/Cliente.js:72-79 | every table has a listing: all its rows, once each, in ascending name order |
| Persistencia.ListagemTamanho | models/Cliente.js:155-160 | a listing has as many entries as the table has rows, which `COUNT(*)` reports |
| Persistencia.OrdenadasIguais | models/Cliente.js:75 | two name-sorted sequences with the same elements, no two sharing a name, are equal |
| Persistencia.ListagemUnica | models/Cliente.js:72-79 | when no two rows share a name, the table has exactly one listing |
| Persistencia.Invariante | config/database.js:42-46 | positive AUTO_INCREMENT ids below the next one, each row under its own id, lower-case emails, and no email held by two rows (the `UNIQUE` column) |
| Persistencia.Tabela.Valid | config/database.js:42-46 | the table's state satisfies `Invariante` |
| Persistencia.InvarianteInsere | config/database.js:42-46 | inserting a lower-case unused email under the next id keeps the table invariant |
| Persistencia.InvarianteReescreve | config/database.js:42-46 | rewriting a row with a lower-case email no other row holds keeps the invariant |
| Persistencia.InvarianteRemove | config/database.js:42-46 | deleting a row keeps the invariant |
| Persistencia.UnicoDono | config/database.js:46 | no row other than its holder has a stored email |
| Persistencia.Tabela.constructor | config/database.js:42-50 | a new table is empty, its next id is 1, and it satisfies the invariant |
| Persistencia.Tabela.Criar | models/Cliente.js:42-67 | when a field is absent, `.trim()` throws and nothing changes; a stored email is refused as a duplicate and nothing changes; otherwise the result is the one new row (trimmed fields, lower-cased email) under the fresh id `nextId` and nothing else changes; or a failure that changes nothing |
| Persistencia.Tabela.ListarTodos | models/Cliente.js:70-83 | every row once, in ascending name order, as many as the table has rows; or a failure |
| Persistencia.Tabela.BuscarPorId | models/Cliente.js:86-99 | the row stored under the id, or null exactly when there is none; or a failure |
| Persistencia.Tabela.BuscarPorEmail | models/Cliente.js:102-115 | a stored row whose email is the lower-cased argument, or null exactly when no row holds it; or a failure |
| Persistencia.Tabela.Atualizar | models/Cliente.js:118-140 | true iff the id existed; on true only that row changes, to the trimmed, lower-cased values; giving it another row's email is refused as a duplicate; on false, a duplicate or a failure nothing changes |
| Persistencia.Tabela.Deletar | models/Cliente.js:143-152 | true iff the id existed; exactly that row is removed; a failure changes nothing |
| Persistencia.Tabela.ContarTotal | models/Cliente.js:155-163 | the number of rows, or a failure |
| Controlador.CriarCliente | controllers/ClienteController.js:11-61 | 415 for any content type other than `application/json`; else 400 with exactly the validator's list; else 409 when the lower-cased email is stored; else 201 with the row that is now the only change to the table; every 500 and every error leave the table unchanged; `erro` is false exactly on 200/201 |
| Controlador.ListarClientes | controllers/ClienteController.js:64-85 | 200 with every row in name order and `total` equal to the row count and to the list length, or 500 |
| Controlador.BuscarCliente | controllers/ClienteController.js:88-124 | 400 for an id the test refuses, before any read; else 200 with the stored row, or 404 when there is none; or 500 |
| Controlador.AtualizarCliente | controllers/ClienteController.js:127-207 | the checks run in this order: 415, then 400 for the id, then 404, then 400 with the validator's list, then 409 for an email another row holds; each leaves the table unchanged; a client resubmitting its own email never gets 409; otherwise 200 with the rewritten row as re-read; a 500 may come before or after the rewrite |
| Controlador.DeletarCliente | controllers/ClienteController.js:210-257 | 400 for a refused id, then 404 for a missing row, both leaving the table unchanged; otherwise 200 with the row as read before deletion and exactly that row removed, or 500 with nothing removed |
| Cenarios.CriarEBuscar | controllers/ClienteController.js:44-114 | a client created with 201 is then found, as the same record, under its id written in decimal |
| Cenarios.CriarDuasVezes | tests/controllers/ClienteController.test.js:58-67 | after a 201, creating the same body again is refused with 409 (or fails), and the table grew by one row |
| Cenarios.DeletarEBuscar | controllers/ClienteController.js:222-247 | after a 200 delete, reading the same id gives 404 (or 500) |
| Cenarios.AtualizarEBuscar | controllers/ClienteController.js:179-196 | after a 200 update, reading the same id returns the record that the update returned |
| Cenarios.BuscarDuasVezes | controllers/ClienteController.js:88-124 | two reads with nothing in between answer alike unless one fails |

## Left out

- The HTTP layer of app.js is not part of this model: routing, CORS, request logging, the 404 fallback, the error middleware and the server bootstrap. It only copies `status_code` into the HTTP response.
- The MySQL pool, connection testing and the DDL are not modelled. What the model keeps is the table's shape: AUTO_INCREMENT ids and the `UNIQUE` email column, as the class invariant.
- `async`/`await` and `console.error` are not modelled. Each operation is modelled as a synchronous sequence.
- SQL text is not modelled, and neither are the timestamp columns or their wall-clock values.
  - The three SELECTs name `criado_em` and `atualizado_em` (models/Cliente.js:73, 89, 105), but the DDL declares `created_at` and `updated_at` (config/database.js:48-49).
  - Against that schema, each of these three reads (`listarTodos`, `buscarPorId`, `buscarPorEmail`) would fail with an unknown-column error. `contarTotal` is not affected: its `SELECT COUNT(*)` (models/Cliente.js:157) names neither column.
  - The model admits that outcome only as its nondeterministic store failure. It does not show that these three reads always fail against this DDL.
- Concurrency is not modelled. Two requests cannot interleave in the model, so:
  - a duplicate-key race between `buscarPorEmail` and `criar` is not shown (the code maps it to 500);
  - the two "Cliente não encontrado para atualização/exclusão" branches are proved unreachable (`assert false`) rather than returned;
  - so is the 200 with a null `cliente` after an update.
- Identificador.ParseId: the id test models JavaScript `isNaN`/`parseInt` only on decimal-digit strings. Strings that JavaScript accepts but the model refuses include `" 12"`, `"+5"` (read as 5), `"1.5"` (read as 1), `"0x10"` (read as 16) and `"1e3"` (read as 1).
  - `parseInt` returns a double, so a digit string above 2^53 is rounded in JavaScript; the model reads it exactly.
  - The `id INT` column caps ids at 2147483647 (config/database.js:44); the model's ids and `nextId` are unbounded.
- Texto.Minusculas: `toLowerCase` is modelled for ASCII and the Latin-1 upper-case letters only. Other scripts, and mappings that change the string's length, are not modelled.
- The MySQL collation is not modelled. Emails are compared by exact equality on the lower-cased value, not case-, accent- or trailing-space-insensitively.
- Texto.NomeLe: `ORDER BY nome` is modelled as a binary code-point order. The DDL sets no collation (config/database.js:43-50), and MySQL's default collation is case- and accent-insensitive, so the real order differs: MySQL puts "ana" before "Bruno", the model puts "Bruno" first. Under that collation "Ana" and "ana" tie, so `Texto.NomeLeAntissimetrica` does not hold for the real order, and the premise of `Persistencia.ListagemUnica` (no two equal names) does not make the real listing unique; the order among tied names is unspecified in MySQL.
- Column widths are not modelled: `VARCHAR(255)` for the name and the email, `VARCHAR(20)` for the phone (config/database.js:45-47). A 25-character phone passes `validarDados`, and the model may store it and answer 201. MySQL in strict mode refuses that INSERT, giving 500; in non-strict mode it truncates the phone, so the row read back differs from what `criar` returned (`Cenarios.CriarEBuscar` does not hold there).
- Field types are not modelled. A body field is either a string or absent. What JavaScript does with other JSON values is therefore not shown:
  - a `0`, `false` or `null` in any field is refused by `!dados.x` with 400 (models/Cliente.js:20, 24, 28), as an absent field is;
  - a non-zero number, an array or an object in the name or the phone makes `.trim()` throw in `validarDados`, giving 500;
  - in the email, `regex.test` first converts the value to a string (models/Cliente.js:38): a number fails the regex and gets 400; an array whose text is an email passes validation, and then `email.toLowerCase()` throws in `buscarPorEmail` (models/Cliente.js:110), giving 500;
  - a missing body makes `validarDados` throw, giving 500.
- AUTO_INCREMENT gaps are not modelled. The model's next id only advances on a successful insert. MySQL may also consume an id on a failed insert. In both cases ids are never reused in the model. MySQL's InnoDB before 8.0 reset the counter to max(id)+1 on restart, which could reuse the id of a deleted last row.
- Persistencia.Resultado: a gateway error carries no message text. The controller never reads one: its 409 answers come from its own email lookup, and every error the gateway throws becomes 500.
