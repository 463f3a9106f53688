# Mercal2 duty roster — a Dafny model

Mercal2 is a web application that runs the duty roster of a military school. It also handles the
presence board (who is off base) and the user and role administration. This project models the
application's core and proves what that core guarantees:

- **The daily roster generator** (`gerar_escala_diaria`), in modules `EscalaModel`,
  `EscalaService`, `EscalaGarantias` and `EscalaBanco` (the store that runs it on the tables).
  - For every post it ranks the candidates: outstanding punishments first, then the fewest duties
    of the day's type.
  - It takes the first candidate whose year the post accepts and who has no duty the day before,
    of or after.
  - It records the allocation and updates that person's counters.
  - When any post stays empty, the whole run is rolled back.
- **Swap approval** (`aprovar_troca`), also in `EscalaService`. It moves a duty to the substitute
  and moves one counter unit along with it.
- **The presence board** (`PresenceService`):
  - the out/in rule;
  - the two upserts, exit and return;
  - one class's presence list;
  - its statistics.
- **User and role administration** (`UserService`):
  - creating and editing users;
  - replacing a user's permanent roles;
  - the sorted role list;
  - the access decision over permanent and temporary roles.
- **The web layer's pure parts:**
  - grouping the roster page by date and splitting it into published and draft tabs
    (`EscalaHandlers`);
  - the administration form validators and the store calls behind them (`AdminHandlers`);
  - the day and month name tables (`UserHandlers`);
  - the role checkbox test of the edit page (`Templates`).

How the model is built:

- State the source changes in place is a class with `map`/`seq` fields: `EscalaStore`,
  `PresenceStore` and `UserStore`.
- Each state-changing method is proved equal to a function on table values. On error that value is
  the old state, which models the transaction rollback.
- The lemmas state the guarantees about those functions.
- `Wrappers`, `Text` and `Sorting` hold shared definitions:
  - `Option`/`Result`;
  - trimming, splitting, decimal text, ASCII case and UTF-8 length;
  - a stable insertion sort.

Modelling decisions:

- **Dates and timestamps.** Dates are day ordinals and timestamps are integers. `YYYY-MM-DD` and
  RFC 3339 text compares the way these numbers do.
- **Candidate order.** The order in which the database scans users is a parameter `ordem`. The
  candidate query's `ORDER BY` has no tie-breaker, so the pool is the stable sort of the filtered
  scan.
  - `ordem` lists every user of the table exactly once; the store method requires this.
  - The source runs the query again for each post. The model uses one scan order for every post
    of the run, since the run only updates counter columns and never adds or removes a user row.
- **Posts** are taken in the order of the `postos` field.
- **Year check.** At `src/services/escala_service.rs:85` the generator calls
  `posto.aceita_turma(&user.turma)`, but the post type only has `aceita_ano`
  (`src/models/escala.rs:18-23`). The model follows the evidently intended
  `aceita_ano(candidate.ano)`.
  - The engine takes the check as a parameter `aceita`, so its lemmas hold for any check.
  - The store method passes `EscalaModel.AceitaAno`.
- **New day headers.** The status that `INSERT OR IGNORE INTO escalas` gives a new header comes
  from a schema default that is not among the files. It is taken to be `"Rascunho"`, the status
  every reader falls back to.
- **Fatigue queries** are total: the `unwrap_or(false)` fallback is never taken.
- **The `role` column** of `user_roles` compares without regard to ASCII case. This follows the
  remark at `src/services/user_service.rs:303`; the schema is not part of this model.
  - A user holds a role at most once.
  - `INSERT OR IGNORE` skips a repeated role, and a plain `INSERT` of one fails.
- **Temporary roles.** The `IN` test of the temporary-role query compares exactly.
- **Password hashes** are inputs. bcrypt is not part of this model.
- **Clocks** are inputs: `agora` is the current instant.

## Model

| member | source | states |
|---|---|---|
| EscalaModel.AnyTrimmedEqualsIff | src/models/escala.rs:20-22 | the `any` over trimmed pieces is true exactly when some piece trims to the text |
| EscalaModel.AceitaAnoPieces | src/models/escala.rs:18-23 | for a list built from comma-free pieces, a year is accepted iff some piece trims to its decimal text |
| EscalaModel.AceitaAnoYears | src/models/escala.rs:18-23 | a list written from a set of years accepts exactly the years in it (membership, not a range) |
| EscalaModel.AceitaAnoSingle | src/models/escala.rs:18-23 | a one-year list accepts that year and no other |
| EscalaModel.AceitaAnoPadded | src/models/escala.rs:22 | white space around a piece does not change acceptance |
| EscalaModel.AceitaAnoEmpty | src/models/escala.rs:20-22 | the empty list accepts no year |
| EscalaModel.AceitaAnoSwap | src/models/escala.rs:21-22 | swapping two pieces of the list accepts the same years |
| EscalaModel.AceitaAnoExampleGap | src/models/escala.rs:20-22 | "1,3" rejects 2 |
| EscalaModel.AceitaAnoExampleSpaced | src/models/escala.rs:22 | "1, 2" accepts 2 |
| EscalaModel.AceitaAnoExampleNoPrefix | src/models/escala.rs:22 | "12" accepts neither 1 nor 2 |
| EscalaService.TipoDoCabecalhoAsStr | src/services/escala_service.rs:12-19 | reading back the stored duty-type text ("RN" is RN, anything else RD) gives the type that `as_str` wrote |
| EscalaService.OrdemTotal | src/services/escala_service.rs:66-69 | the candidate order (balance descending, then the day type's counter ascending) is a total preorder |
| EscalaService.FiltrarMembros | src/services/escala_service.rs:59-66 | the filter keeps exactly the scanned users of the post's gender (any gender for "Misto") with no unavailability window covering the day, both ends included |
| EscalaService.CandidatosPool | src/services/escala_service.rs:59-75 | the pool is sorted by the candidate order and holds exactly the eligible users |
| EscalaService.PrimeiroQue | src/services/escala_service.rs:82-107 | the index found is the first at or after the start that passes the test; none is found only when nobody there passes |
| EscalaService.EscolhidoMaisPrioritario | src/services/escala_service.rs:66-107 | the first qualifying member of a sorted pool ranks at least as high as every other qualifying member |
| EscalaService.EscolherCandidato | src/services/escala_service.rs:80-107 | the candidate loop with its `break` returns the first pool member who passes the year check and the rest rule |
| EscalaService.RegistrarEfeito | src/services/escala_service.rs:112-138 | a person with a punishment balance pays one from it and keeps both counters; anyone else gains one on the day type's counter only |
| EscalaService.AlocarUmPosto | src/services/escala_service.rs:46-147 | one pass over a post returns what the post step computes: the tables with one allocation and one count more, the "no candidate" error naming the post and its years, or the duplicate-key error |
| EscalaBanco.EscalaStore.GerarEscalaDiaria | src/services/escala_service.rs:22-152 | on success the tables become those the generation function computes; on any error they are exactly as before; valid tables (user rows under their own ids, the rest rule over all allocations) stay valid |
| EscalaBanco.EscalaStore.AprovarTroca | src/services/escala_service.rs:156-226 | on success the tables become those the approval function computes; on either error they are exactly as before; valid tables stay valid |
| EscalaGarantias.EscolhaCorreta | src/services/escala_service.rs:59-107 | the chosen person is eligible, rested, accepted for the post and ranks at least as high as any other qualifying person; nobody is chosen exactly when nobody qualifies |
| EscalaGarantias.AlocarPostoEfeito | src/services/escala_service.rs:110-138 | a successful post step adds one allocation for an eligible, rested person and counts it |
| EscalaGarantias.AlocarPostosPasso | src/services/escala_service.rs:46-147 | a successful run is a successful first post followed by a successful run over the rest |
| EscalaGarantias.AlocarPostosPreserva | src/services/escala_service.rs:116-124 | a successful run keeps every old allocation and adds rows only under the fresh ids |
| EscalaGarantias.AlocarPostosAlocacoes | src/services/escala_service.rs:110-125 | each post gets one new row under its own id, dated that day and naming that post |
| EscalaGarantias.AlocarPostosPessoas | src/services/escala_service.rs:82-124 | each allocated person was eligible and rested before the run, and nobody gets two posts of the day |
| EscalaGarantias.AlocarPostosContadores | src/services/escala_service.rs:112-138 | each allocated person is counted once as the bookkeeping rule says, the row records a punishment repayment, and nobody else's counters change |
| EscalaGarantias.AlocarPostoSemFadiga | src/services/escala_service.rs:90-107 | a step's new row is for a person with nothing the day before, of or after |
| EscalaGarantias.AlocarPostosSemFadiga | src/services/escala_service.rs:90-124 | a run keeps the rest rule over the whole allocation table, earlier posts of the run included |
| EscalaGarantias.AlocarPostosSemPessoal | src/services/escala_service.rs:140-146 | a post nobody can fill makes the run fail |
| EscalaGarantias.AlocarPostosSemCandidato | src/services/escala_service.rs:140-146 | a "no candidate" error names a post of the list and its permitted years |
| EscalaGarantias.EscolhaVazia | src/services/escala_service.rs:80-107 | the candidate loop finds nobody exactly when no pool member passes both the year check and the rest rule |
| EscalaGarantias.AlocarPostosSemCandidatoIff | src/services/escala_service.rs:42-146 | a run fails with "no candidate" for a post name and year list iff it reaches, with every earlier post filled, a post of that name and list whose pool has nobody who qualifies against the allocations made so far |
| EscalaGarantias.ParaNoPostoCompleto | src/services/escala_service.rs:59-107 | when the scan covers every user, the run stops at a post it reaches iff everybody eligible for it already holds a duty within a day of the date |
| EscalaGarantias.DepoisDoPrimeiro | src/services/escala_service.rs:90-124 | whoever qualifies for a later post after the first post is filled qualified before, and is not the person the first post got |
| EscalaGarantias.AlocarPostosIdRepetido | src/services/escala_service.rs:116-124 | a duplicate-key error names one of the fresh ids |
| EscalaGarantias.GeracaoDiariaCabecalho | src/services/escala_service.rs:29-36 | success leaves exactly one header for the day (an existing one untouched, a new one a draft of the day's type) and leaves posts, unavailability and swaps alone |
| EscalaGarantias.GeracaoDiariaSemFadiga | src/services/escala_service.rs:90-124 | generating a day keeps the rest rule over the whole allocation table, and every user row under its own id |
| EscalaGarantias.GeracaoDiariaSemPessoal | src/services/escala_service.rs:140-150 | with a post nobody can fill, generation fails and nothing of it persists |
| EscalaGarantias.AprovacaoTrocaCasos | src/services/escala_service.rs:163-198 | approval succeeds exactly for a pending swap joined to its allocation and header whose substitute has nothing within a day of the duty |
| EscalaGarantias.AprovacaoTrocaRegistros | src/services/escala_service.rs:200-222 | approval moves the allocation to the substitute, changes nothing else about it, marks the swap "Aprovada" at the given instant, and leaves posts, unavailability and headers alone |
| EscalaGarantias.AprovacaoTrocaContadores | src/services/escala_service.rs:206-217 | a regular duty moves one unit of the day type's counter from requester to substitute; a punishment duty changes no counter |
| EscalaGarantias.AprovacaoTrocaOutros | src/services/escala_service.rs:206-217 | only the requester's and the substitute's day-type counters can change |
| EscalaGarantias.AjustarContadorSo | src/services/escala_service.rs:210-217 | one counter `UPDATE` changes that counter of that user only, and nothing for an unknown id |
| EscalaGarantias.AprovacaoTrocaSemFadiga | src/services/escala_service.rs:182-204 | approving a swap keeps the rest rule over the whole allocation table |
| PresenceService.EstaFora | src/services/presence_service.rs:150-154 | with exit and return a person is out iff the exit is later; with only an exit, out; with no exit, in |
| PresenceService.ComSaida | src/services/presence_service.rs:31-41 | the exit upsert sets that row's exit time and operator and keeps its return columns; a new row has no return |
| PresenceService.ComRetorno | src/services/presence_service.rs:64-74 | the return upsert sets that row's return time and operator and keeps its exit columns |
| PresenceService.SaidaMarcaFora | src/services/presence_service.rs:31-41 | after an exit the person is out iff there was no row, no return, or a return earlier than the exit |
| PresenceService.RetornoMarcaDentro | src/services/presence_service.rs:64-74 | after a return the person is in iff there was no row, no exit, or an exit not later than the return |
| PresenceService.SaidaIdempotente | src/services/presence_service.rs:31-41 | marking the same exit twice leaves the row of marking it once |
| PresenceService.SaidaRetornoComutam | src/services/presence_service.rs:31-74 | an exit of one person and a return of another give the same table in either order |
| PresenceService.DaTurma | src/services/presence_service.rs:93-96 | the class filter keeps exactly the users whose year is the class, none more often than in the input |
| PresenceService.PorIdTotal | src/services/presence_service.rs:170 | ordering by id is a total preorder |
| PresenceService.ListaPresencaOrdenada | src/services/presence_service.rs:170 | the list is sorted by id |
| PresenceService.ListaPresencaMembros | src/services/presence_service.rs:93-167 | the list holds one entry per user of the class and no others |
| PresenceService.ListaPresencaIdsUnicos | src/services/presence_service.rs:93-167 | with distinct user ids, no id appears twice in the list |
| PresenceService.SemRegistroDentro | src/services/presence_service.rs:132-154 | a user without a presence row is listed as inside |
| PresenceService.CountForaFlags | src/services/presence_service.rs:179-184 | the out count is the number of entries whose out flag is set |
| PresenceService.CountForaPermutation | src/services/presence_service.rs:179-184 | reordering the people does not change the out count |
| PresenceService.CountForaLimites | src/services/presence_service.rs:179-184 | the out count is at most the number of people; it is 0 iff nobody is out and the total iff everybody is |
| PresenceService.CalcularStats | src/services/presence_service.rs:178-191 | total is the number of people, out is the out count, and out plus in is total |
| PresenceService.PresenceStore.MarcarSaida | src/services/presence_service.rs:16-47 | the table gets the exit upsert of that user and no other row changes |
| PresenceService.PresenceStore.MarcarRetorno | src/services/presence_service.rs:51-80 | the table gets the return upsert of that user and no other row changes |
| PresenceService.PresenceStore.GetPresenceListForTurma | src/services/presence_service.rs:83-174 | the loop and the sort return the class's presence list; an empty class gives an empty list |
| UserService.NoCaseTotal | src/services/user_service.rs:60 | the case-blind role order is a total preorder |
| UserService.NoCaseEqual | src/services/user_service.rs:60 | two roles sort to the same place exactly when they are equal ignoring ASCII case |
| UserService.RolesDoUserMembros | src/services/user_service.rs:57-62 | the selected roles are exactly the role rows of that user |
| UserService.OutrosUsersMembros | src/services/user_service.rs:280-287 | after the delete, exactly the rows of other users remain |
| UserService.NaoVaziasMembros | src/services/user_service.rs:296 | the non-blank roles are exactly the entries that are not all white space |
| UserService.TemRoleIff | src/services/user_service.rs:303 | a user holds a role case-blind exactly when one of their selected roles matches it |
| UserService.GetUserRolesSorted | src/services/user_service.rs:55-72 | the role list is sorted case-blind and holds each of the user's role rows once |
| UserService.CheckUserRoleAnyIff | src/services/user_service.rs:205-258 | access is granted iff the required list is empty, or a permanent role matches a required one ignoring case, or a temporary role in the list is active (start included, end excluded) |
| UserService.ComRolesNovasPreserva | src/services/user_service.rs:148-163 | the role inserts of `create_user` keep every old row, add rows only for that user, and only from the list |
| UserService.ComRolesNovasCobre | src/services/user_service.rs:148-163 | after the inserts the user holds every listed role, and a repeated role adds no second row |
| UserService.InserirRolesPasso | src/services/user_service.rs:290-307 | one step of the insert loop: a blank role is skipped, a held role fails, any other is appended |
| UserService.InserirRolesErroPersiste | src/services/user_service.rs:298-307 | once an insert fails, the whole replacement fails |
| UserService.InserirRolesOk | src/services/user_service.rs:290-307 | a successful replacement appends exactly the non-blank roles |
| UserService.InserirRolesErroIff | src/services/user_service.rs:290-307 | the inserts fail exactly when the non-blank roles repeat a role, ignoring case |
| UserService.SubstituicaoEfeito | src/services/user_service.rs:260-317 | the replacement fails iff the non-blank new roles repeat one; on success the user's roles are exactly the non-blank new roles and other users' rows are untouched |
| UserService.SemRolesDe | src/services/user_service.rs:280-287 | after the delete the user holds no role |
| UserService.OutrosUsersIdempotente | src/services/user_service.rs:280-287 | deleting a user's roles twice is deleting them once |
| UserService.OutrosUsersFixo | src/services/user_service.rs:280-287 | deleting the roles of a user who has none changes nothing |
| UserService.IsBlank | src/services/user_service.rs:296 | `trim().is_empty()` holds exactly for all-white-space text |
| UserService.UserStore.CreateUser | src/services/user_service.rs:106-169 | an existing id fails with nothing written; otherwise the user row is added and the roles inserted with `INSERT OR IGNORE` |
| UserService.UserStore.SetUserRoles | src/services/user_service.rs:260-317 | on success the role rows become the replacement; on failure nothing changes |
| UserService.UserStore.UpdateUser | src/services/user_service.rs:319-370 | an unknown id fails with nothing written; otherwise only that user's basic fields change |
| UserService.UserStore.UpdateUserPassword | src/services/user_service.rs:172-201 | an unknown id fails with nothing written; otherwise only that user's password hash changes |
| EscalaHandlers.AgruparChaves | src/web/escala_handlers.rs:65-70 | each distinct date among the rows has exactly one day, and no other day exists |
| EscalaHandlers.AgruparConteudo | src/web/escala_handlers.rs:97-108 | each day carries its own date and, in row order, the allocations of the rows of that date that have one |
| EscalaHandlers.ChaveNoMapa | src/web/escala_handlers.rs:65-70 | every recorded date has its day in the map |
| EscalaHandlers.AgruparDias | src/web/escala_handlers.rs:65-108 | the keys and the content of the grouping together |
| EscalaHandlers.AgruparPrimeira | src/web/escala_handlers.rs:70-85 | a day's type and status come from the first row with its date; a missing status reads as "Rascunho" |
| EscalaHandlers.AlocacoesIsMeu | src/web/escala_handlers.rs:106 | an allocation is marked as the viewer's iff its user is the viewer |
| EscalaHandlers.AbasParticao | src/web/escala_handlers.rs:112-121 | every day is in exactly one tab: published iff its status is "Publicada" |
| EscalaHandlers.AbasOrdem | src/web/escala_handlers.rs:115 | with the keys in ascending order, both tabs are in ascending date order |
| EscalaHandlers.StrLeTotalPreorder | src/web/escala_handlers.rs:65 | the `BTreeMap` key order is a total preorder |
| EscalaHandlers.PaginaOrdenada | src/web/escala_handlers.rs:65-121 | both tabs are in ascending date order and together hold one day per date |
| EscalaHandlers.PaginaEscala | src/web/escala_handlers.rs:65-121 | the grouping loop and the tab loop return the page of the rows |
| AdminHandlers.CriacaoInvalidaIff | src/web/admin_handlers.rs:149-155 | the create form is rejected iff id, name, turma or curso trims to nothing, the password has fewer than 4 bytes, or the gender is not exactly "M" or "F" |
| AdminHandlers.SenhaInvalidaIff | src/web/admin_handlers.rs:217 | a password change is rejected iff the id trims to nothing or the password has fewer than 4 bytes |
| AdminHandlers.EdicaoInvalidaIff | src/web/admin_handlers.rs:338-342 | the edit form is rejected iff name, turma or curso trims to nothing or the gender is not M/F |
| AdminHandlers.EdicaoAnoLivre | src/web/admin_handlers.rs:338-342 | the year and the roles never make an edit invalid |
| AdminHandlers.CriacaoValidaEdicaoValida | src/web/admin_handlers.rs:338-342 | a valid create form passes the edit test with the same fields |
| AdminHandlers.SenhaContaBytes | src/web/admin_handlers.rs:217 | the length test counts UTF-8 bytes: "çã" (two characters, four bytes) passes and "abc" fails |
| AdminHandlers.HandleCreateUser | src/web/admin_handlers.rs:141-206 | an invalid form redirects with an error and makes no store call; a valid one creates the user unless the id exists |
| AdminHandlers.HandleChangePassword | src/web/admin_handlers.rs:208-246 | an invalid form or unknown id changes nothing; otherwise only the user's hash changes |
| AdminHandlers.HandleEditUser | src/web/admin_handlers.rs:329-388 | an invalid form or unknown id changes nothing; otherwise the basic data are written and then the roles are replaced, and a failed role replacement keeps the written basic data |
| UserHandlers.WeekdayToPt | src/web/user_handlers.rs:16-23 | every weekday has a non-empty name |
| UserHandlers.WeekdayToPtInjective | src/web/user_handlers.rs:16-23 | the seven weekdays have seven different names |
| UserHandlers.MonthToPt | src/web/user_handlers.rs:24-29 | the name is non-empty iff the month is 1 to 12, and then has three letters |
| UserHandlers.MonthToPtInjective | src/web/user_handlers.rs:26-27 | different months get different names |
| Templates.HasRole | src/templates.rs:117-121 | true iff some current role equals the role ignoring ASCII case |
| Templates.HasRoleVazio | src/templates.rs:118-120 | false for an empty role list |
| Templates.HasRoleIgnoraCaixa | src/templates.rs:120 | names differing only in ASCII case give the same answer |
| Templates.HasRoleAdmin | src/templates.rs:120 | `has_role("ADMIN") == has_role("admin")` |
| Templates.HasRoleConjunto | src/templates.rs:118-120 | the answer depends only on which names occur, not on order or repetition |
| Templates.HasRoleMarcada | src/templates.rs:117-121 | on the edit page, whose list is the user's `get_user_roles`, a box is ticked iff the user holds the role ignoring case |

## Left out

- Period generation, publication, errata, swap requests and swap responses (`gerar_escala_periodo`, `publicar_escala`, `solicitar_troca`, `errata_dia`, `responder_troca_usuario`) are called by the handlers, but their bodies are not part of this model.
- The generator has no published-day check and no teardown before regenerating a day. The model adds none.
- Database failures other than the key collisions the model names are not modelled: connection errors, failed statements, failed commits. Counter updates ignored with `.ok()` are modelled as succeeding.
- The `agora` parameter stands for `datetime('now')` and `Utc::now()`; clocks are inputs.
- Timestamp strings are integers. RFC 3339 parsing, and the text comparison of stored timestamps, are not modelled.
- `find_user_by_id`, `find_all_users` and the listing pages only read and render; they are not modelled.
- The `data_formatada` text of the roster page is not modelled. This covers the chrono parsing and the inline weekday table at `src/web/escala_handlers.rs:71-91`. `UserHandlers.WeekdayToPt` models the equivalent `weekday_to_pt`.
- WebSocket broadcasts, sessions, authentication, the role middlewares, routing, template rendering and the HTML error pages are not modelled. So are the redirect URL texts and their encoding, and application start-up and database setup.
- bcrypt hashing is not modelled: the hash of a password is an input.
- The `is_punicao` column is nullable, and approval reads a NULL as false (`src/services/escala_service.rs:207`). The model's allocation row holds a plain boolean, so a NULL is represented by false.
- The `created_at` and `updated_at` columns of `users` (`src/models/user.rs:17-18`) are not modelled, and neither is the trigger that refreshes `updated_at` on every update (`src/services/user_service.rs:331`). No operation of the model reads them.
- Transaction isolation between concurrent requests is not modelled. Each service call is one atomic step.
- `EscalaBanco.EscalaStore.GerarEscalaDiaria`: the person counters are unbounded integers. The `i64` of the source could overflow only after 2^63 duties, which the model does not consider.
- `UserService.CheckUserRoleAnyIff`: the temporary-role `IN` test compares exactly. Whether the temporary-role table's column is case-blind is not known, because the schema is not part of this model.
- `UserHandlers.MonthToPt`: its contract states the shape of the table (non-empty iff 1 to 12, three letters) and, with `MonthToPtInjective`, that the names differ. The individual names are stated only by the function's body.
