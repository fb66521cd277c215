# Restaurant back office: cash register, receipts, orders and login

This project models the core of a restaurant back office in Dafny:

- the cash register: cash sessions (`caja`) and sales (`venta`);
- the receipts issued for a sale (`recibo`), and their simulated submission to SUNAT, the Peruvian tax authority, logged in `sunat_log`;
- the orders (`pedido`) and their free-form status;
- the login, which maps the stored user type onto the five front-end roles.

The back office exists twice:

- Laravel controllers: `CajaController`, `ReciboController`, `PedidoController` and `AuthController`.
- Older raw-PHP scripts under `resources/`.

Both are modelled. The cash, receipt and order endpoints share one in-memory database, the class `BackOffice.Store`. It has one sequence field and one auto-increment counter for each of the `caja`, `venta`, `recibo`, `sunat_log` and `pedido` tables, and one method per endpoint. The login endpoint is the function `Auth.Login`, over a `usuarios` table given to it as a sequence.

Conventions:

- Money is an integer number of cents.
- Instants are integer seconds of local time.
- A sale's `fecha` is a day number, `Ledger.DayOf`.
- The date printed into a receipt number is a `Receipts.CivilDate`.
- Every clock read (`now()`, `CURDATE()`, `date('Ymd')`) is a parameter.

Modules:

- `Common`: `Option`, and Laravel's `required` test: a string that is not blank after PHP's `trim`.
- `Tables`: queries over a table held as a sequence of rows:
  - the highest-id row matching a filter (`ORDER BY id DESC LIMIT 1`);
  - `find` by id;
  - the auto-increment invariant.
- `Decimal`: PHP's integer-to-string conversion, `str_pad(..., '0', STR_PAD_LEFT)`, and reading a digit string back as a number.
- `Ledger`: sessions, sales, the opening default, and the closing amount. The closing amount is the opening amount plus the sum of the sales dated on or after the opening day.
- `Receipts`: the receipt itself:
  - the IGV split;
  - the receipt number `R` + `Ymd` + the sale id padded to 6 digits;
  - the BOLETA/FACTURA coercion;
  - the pending count.
- `Orders`: order creation, both validation rules, the status overwrite, and the newest-first listing.
- `Auth`: the role mapping and the login answer.
- `BackOffice`: the database invariant, one preservation lemma per kind of write, and the class `Store`.

The database invariant (`BackOffice.Store.Valid`) requires:

- ids ascend in insertion order in every table and stay below the table's counter;
- at most one session is `ABIERTA`;
- every sale amount is positive;
- every receipt's parts add up to its total, and its subtotal is the nearest cent to `total / 1.18`;
- every receipt's number starts with `R` and its digits after position 9 read back as its sale id;
- every receipt refers to a stored sale and carries that sale's amount;
- every log entry names a receipt that is no longer pending, no two entries name the same receipt, and there are as many entries as receipts no longer pending.

Every state-changing method preserves the invariant. Each one states its whole new state in terms of the old one.

Behaviour of the code that the model keeps as it is:

- The cash and receipt endpoints answer an error as a JSON body `{error: <message>}` with HTTP status 200, for example `Ya existe una caja abierta`. The model's `Failure.Message` gives those messages.
- A sale without `metodo_pago` is recorded as `Efectivo` by `CajaController::registrarVenta`. A receipt's tipo is BOLETA unless `FACTURA` is given.
- New orders start in the estado `pedido`.
- `ReciboController::generar` tests `if ($ventaId)`. So a `venta_id` of 0 selects the latest sale. An unknown id answers `No hay ventas`.
- The Laravel order form rejects a `detalle` that is blank after `trim`. The raw endpoint rejects the empty string and `"0"`, and a `mesa` of 0.

## Model

| member | source | states |
|---|---|---|
| Tables.LatestIndex | backend/app/Http/Controllers/CajaController.php:64 | `WHERE ... ORDER BY id DESC LIMIT 1`: None exactly when no row passes the filter; otherwise a row that passes it and has the highest id among those that do |
| Tables.Latest | backend/app/Http/Controllers/CajaController.php:31 | `ORDER BY id DESC LIMIT 1`: None exactly when the table is empty; otherwise the row with the highest id |
| Tables.FindKey | backend/app/Http/Controllers/PedidoController.php:39 | `find($id)`: None exactly when no row has the id; otherwise a row with that id |
| Tables.FindKeyUnique | backend/app/Http/Controllers/PedidoController.php:39 | with auto-increment ids, `find` returns the one and only row with the id |
| Tables.LatestIndexIsLast | backend/app/Http/Controllers/CajaController.php:64 | with auto-increment ids, no row inserted after the highest-id match passes the filter |
| Tables.KeysOrdered | resources/php/caja/abrir_caja.php:14-17 | the auto-increment invariant gives ids that strictly grow with insertion order and lie below the next id |
| Tables.AppendKeepsAscending | resources/php/caja/abrir_caja.php:14-17 | an INSERT with the next auto-increment id keeps the ids ascending and below the advanced counter |
| Tables.UpdateKeepsAscending | backend/app/Http/Controllers/CajaController.php:75-78 | an UPDATE that keeps a row's id keeps the auto-increment invariant |
| Decimal.FromNat | backend/app/Http/Controllers/ReciboController.php:28 | the decimal form of a number is a non-empty digit string without leading zeros |
| Decimal.PadLeft | backend/app/Http/Controllers/ReciboController.php:28 | `str_pad(..., STR_PAD_LEFT)`: length is the larger of the width and the input's length; the input is the suffix; everything before it is the fill character; never truncates |
| Decimal.ValueFromNat | backend/app/Http/Controllers/ReciboController.php:28 | reading back the decimal form of a number gives the number |
| Decimal.PadNatValue | backend/app/Http/Controllers/ReciboController.php:28 | a zero-padded number reads back as the number, whatever the width |
| Decimal.PadNat | backend/app/Http/Controllers/ReciboController.php:28 | a zero-padded number is all digits |
| Decimal.PadNatLength | backend/app/Http/Controllers/ReciboController.php:28 | a number below 10^width is padded to exactly `width` digits |
| Ledger.DayOf | backend/app/Http/Controllers/CajaController.php:69 | the calendar day of an instant: the day whose 86400 seconds contain it |
| Ledger.HasOpen | backend/app/Http/Controllers/CajaController.php:13-16 | the `exists()` test for a session in estado ABIERTA; `Store.Abrir` states what follows from it, and `OpenKeepsAtMostOne` that it keeps at most one open |
| Ledger.OpeningAmount | backend/app/Http/Controllers/CajaController.php:18 | the given `monto`, or 100.00 when none is given |
| Ledger.Closed | backend/app/Http/Controllers/CajaController.php:75-78 | the closed session keeps id, opening instant and opening amount; it is `CERRADA` with `fecha_cierre` and `monto_final` set |
| Ledger.SumSince | backend/app/Http/Controllers/CajaController.php:71 | the sum of the amounts of the sales dated on or after a day; its meaning is stated by `SumSinceConcat`, `SumSinceZeroIff`, `SumSinceAntitone` and `SaleAddsToClosing` |
| Ledger.ClosingAmount | backend/app/Http/Controllers/CajaController.php:73 | the opening amount plus `SumSince` of the opening day; `SaleAddsToClosing` states how a sale moves it |
| Ledger.SumSinceConcat | backend/app/Http/Controllers/CajaController.php:71 | the sales sum splits over any division of the sales table |
| Ledger.SumSinceZeroIff | resources/php/caja/cerrar_caja.php:16-18 | with positive sales, the `COALESCE(SUM(monto),0)` total is never negative; it is 0 exactly when no sale is dated on or after the day |
| Ledger.SumSinceAntitone | backend/app/Http/Controllers/CajaController.php:69-71 | moving the window's first day later never increases the total |
| Ledger.SaleAddsToClosing | backend/app/Http/Controllers/CajaController.php:71-73 | a sale dated on or after the opening day adds exactly its amount to the closing amount |
| Ledger.OpenKeepsAtMostOne | backend/app/Http/Controllers/CajaController.php:13-24 | inserting a session when none is open leaves at most one open |
| Ledger.CloseLeavesNoneOpen | backend/app/Http/Controllers/CajaController.php:64-78 | closing the open session of a ledger with at most one open session leaves none open |
| Receipts.IgvSplit | backend/app/Http/Controllers/ReciboController.php:25-27 | in cents, subtotal + IGV = total. The subtotal lies within half a cent of total / 1.18, and the IGV within 0.59 of a cent of 18% of the subtotal (the residue of rounding the subtotal; 0.23 gives 0.19 and 0.04). For a non-negative total, both lie between 0 and the total |
| Receipts.NoHalfCents | backend/app/Http/Controllers/ReciboController.php:26 | total / 1.18 never falls exactly between two cents, so the rounding mode of `round` cannot matter |
| Receipts.SubtotalIsNearestCent | backend/app/Http/Controllers/ReciboController.php:26 | the subtotal is the only cent amount within half a cent of total / 1.18 |
| Receipts.IgvSplitExample | backend/app/Http/Controllers/ReciboController.php:25-27 | 118.00 splits into 100.00 and 18.00 of IGV |
| Receipts.CoerceTipo | backend/app/Http/Controllers/ReciboController.php:29-32 | the tipo is FACTURA exactly when `FACTURA` is given; a missing or any other value gives BOLETA |
| Receipts.CoerceTipoKeepsNames | backend/app/Http/Controllers/ReciboController.php:29-32 | BOLETA and FACTURA are kept, so coercing twice is coercing once |
| Receipts.Ymd | backend/app/Http/Controllers/ReciboController.php:28 | `date('Ymd')`: the year, month and day zero-padded to 4, 2 and 2 digits; `NumeroLayout` and `NumeroReadsBack` state its layout and read-back |
| Receipts.Numero | backend/app/Http/Controllers/ReciboController.php:28 | the receipt number; described by `NumeroLayout`, `NumeroDigits`, `NumeroReadsBack`, `NumeroInjective` and `NumeroExample` |
| Receipts.NumeroExample | backend/app/Http/Controllers/ReciboController.php:28 | sale 7 on 2024-03-05 is numbered `R20240305000007` |
| Receipts.NumeroLayout | backend/app/Http/Controllers/ReciboController.php:28 | the receipt number is `R`, 4 year digits, 2 month digits, 2 day digits, then the padded sale id |
| Receipts.NumeroDigits | backend/app/Http/Controllers/ReciboController.php:28 | everything after the `R` is a digit |
| Receipts.NumeroReadsBack | backend/app/Http/Controllers/ReciboController.php:28 | the year, month, day and sale id read back from the number. The number has at least 15 characters, and exactly 15 when the id is below 10^6 |
| Receipts.NatAtLeastPowHasMoreDigits | backend/app/Http/Controllers/ReciboController.php:28 | a sale id of at least 10^k has more than k digits, so `str_pad` never cuts it and the number grows past 15 characters |
| Receipts.NumeroInjective | backend/app/Http/Controllers/ReciboController.php:28 | two receipt numbers on valid dates are equal only for the same date and sale |
| Receipts.NewRecibo | backend/app/Http/Controllers/ReciboController.php:34-41 | the new receipt carries the sale's id and amount, the IGV split of that amount, the receipt number, the tipo, and PENDIENTE |
| Receipts.NewReciboWellFormed | backend/app/Http/Controllers/ReciboController.php:25-41 | a receipt generated on a valid date adds up, and its number reads back as its sale id |
| Receipts.MarkSent | backend/app/Http/Controllers/ReciboController.php:63 | the sent receipt is no longer pending; every other field is unchanged |
| Receipts.PendingCount | backend/app/Http/Controllers/ReciboController.php:58 | the number of receipts in estado PENDIENTE, the ones `enviarSunat` can select; `PendingCountAppend` and `MarkSentCount` state how inserts and sends move it |
| Receipts.PendingCountAppend | backend/app/Http/Controllers/ReciboController.php:41 | appending a receipt raises the pending count by one exactly when it is pending |
| Receipts.MarkSentCount | backend/app/Http/Controllers/ReciboController.php:63-64 | marking one pending receipt as sent lowers the pending count by exactly one |
| Receipts.MarkSentKeepsWellFormed | backend/app/Http/Controllers/ReciboController.php:63-64 | marking a receipt sent keeps every receipt well formed |
| Orders.StoreRequestValid | backend/app/Http/Controllers/PedidoController.php:18-21 | `mesa => required|integer, detalle => required|string`; `Store.StorePedido` states both outcomes |
| Orders.ApiRequestValid | resources/js/pedido_api.php:8-11 | `!$mesa || !$detalle` on `(int)$_POST['mesa']` and `$_POST['detalle']`; `Store.PedidoApiCreate` states both outcomes |
| Orders.KitchenAllowed | resources/php/cocina_api.php:4 | a session user whose `tipo` is exactly `cocina`; `Store.CocinaUpdate` and `Store.CocinaList` state both outcomes |
| Orders.NewPedido | backend/app/Http/Controllers/PedidoController.php:23-27 | a new order has the given table and detail, estado `pedido`, and `fecha` = now |
| Orders.SetEstado | backend/app/Http/Controllers/PedidoController.php:41-42 | the UPDATE keeps the length; every order with the id gets the new estado, whatever it was; nothing else changes |
| Orders.SetEstadoUnknownId | resources/php/cocina_api.php:11-15 | an UPDATE on an id no order has changes nothing |
| Orders.SetEstadoAtKey | backend/app/Http/Controllers/PedidoController.php:39-42 | with auto-increment ids the UPDATE changes exactly the one row `find` returns |
| Orders.SetEstadoKeepsKeys | backend/app/Http/Controllers/PedidoController.php:41-42 | changing an estado keeps every id, so it keeps the auto-increment invariant |
| Orders.SetEstadoLastWins | backend/app/Http/Controllers/PedidoController.php:41 | there is no transition check: the last estado written wins |
| Orders.SortNewestFirst | backend/app/Http/Controllers/PedidoController.php:12 | `orderBy('fecha', 'desc')`; `SortSorted` and `SortPermutes` state that it is newest first and holds exactly the input |
| Orders.InsertPermutes | backend/app/Http/Controllers/PedidoController.php:12 | inserting into the listing adds the order and loses none |
| Orders.InsertMembers | backend/app/Http/Controllers/PedidoController.php:12 | the orders after inserting are the order and those before |
| Orders.InsertSorted | backend/app/Http/Controllers/PedidoController.php:12 | inserting into a newest-first listing keeps it newest first |
| Orders.SortPermutes | backend/app/Http/Controllers/PedidoController.php:12 | the listing holds exactly the stored orders |
| Orders.SortSorted | backend/app/Http/Controllers/PedidoController.php:12 | the listing is newest `fecha` first |
| Common.Filled | backend/app/Http/Controllers/AuthController.php:12-15 | Laravel's `required` on a string: not empty after trimming; `Auth.Login` states the Invalid outcome in its terms |
| Auth.Lower | backend/app/Http/Controllers/AuthController.php:32 | `strtolower` on ASCII letters; `LowerIdempotent` and `LowerOfLower` describe it |
| Auth.MapRole | backend/app/Http/Controllers/AuthController.php:32-43 | the if/elseif chain from the lower-cased tipo to a role; `MapRoleByTable`, `MapRoleIgnoresCase` and `MapRoleOfName` describe it |
| Auth.MapRoleByTable | backend/app/Http/Controllers/AuthController.php:32-43 | the if/elseif chain equals a table lookup of the lower-cased tipo: admin; caja, encargado, encargado_caja; cocina, kitchen; pedido, mozo. Everything else is menu |
| Auth.LowerIdempotent | backend/app/Http/Controllers/AuthController.php:32 | `strtolower` applied twice is applied once |
| Auth.MapRoleIgnoresCase | backend/app/Http/Controllers/AuthController.php:32 | tipos equal up to letter case map to the same role |
| Auth.LowerOfLower | backend/app/Http/Controllers/AuthController.php:32 | a string without upper-case letters is its own lower case |
| Auth.MapRoleOfName | backend/app/Http/Controllers/AuthController.php:33-43 | every role's own name maps to that role, so mapping a mapped role changes nothing |
| Auth.FirstMatch | backend/app/Http/Controllers/AuthController.php:19-21 | `where(usuario)->where(clave)->first()`: None exactly when no user has both; otherwise the first user in table order that has both |
| Auth.Login | backend/app/Http/Controllers/AuthController.php:12-55 | Invalid exactly when `usuario` or `clave` is missing or blank. Denied exactly when both are filled and no user matches both. Otherwise granted to the first matching user: that user's mapped role, id and usuario |
| BackOffice.TargetVenta | backend/app/Http/Controllers/ReciboController.php:14-19 | a truthy `venta_id` selects the sale with that id (None exactly when there is none); otherwise the highest-id sale (None exactly when there are no sales) |
| BackOffice.LogOfSent | backend/app/Http/Controllers/ReciboController.php:63-69 | each log entry names a receipt that is no longer pending, and no two entries name the same receipt; kept by `SendKeepsLogOfSent` and `InsertKeepsReceipts` |
| BackOffice.OpenKeepsLedger | backend/app/Http/Controllers/CajaController.php:13-24 | opening a session with the next id while none is open keeps the ledger invariant, and a session is then open |
| BackOffice.CloseKeepsLedger | backend/app/Http/Controllers/CajaController.php:64-78 | closing the open session keeps the ledger invariant and leaves no session open |
| BackOffice.SaleKeepsInvariants | backend/app/Http/Controllers/CajaController.php:44-53 | a positive sale with the next id keeps the ledger invariant, and every receipt keeps its sale |
| BackOffice.InsertKeepsReceipts | backend/app/Http/Controllers/ReciboController.php:34-42 | inserting a well-formed pending receipt for a stored sale, with the next id, keeps the receipts' invariant and adds one pending receipt |
| BackOffice.SendKeepsReceipts | backend/app/Http/Controllers/ReciboController.php:58-69 | marking a pending receipt sent and logging it keeps the receipts' invariant, with one log entry more and one pending receipt fewer |
| BackOffice.SendKeepsLogOfSent | backend/app/Http/Controllers/ReciboController.php:58-69 | logging the pending receipt just marked sent keeps every log entry naming a distinct sent receipt |
| BackOffice.Store.Valid | backend/app/Http/Controllers/CajaController.php:13-26 | the database invariant listed above; the constructor establishes it and every state-changing method keeps it |
| BackOffice.Store.Abrir | backend/app/Http/Controllers/CajaController.php:11-27 | while any session is open: `Ya existe una caja abierta`, nothing changes. Otherwise exactly one session is appended: next id, now, the opening amount, ABIERTA. Either way a session is open afterwards |
| BackOffice.Store.AbrirCajaPhp | resources/php/caja/abrir_caja.php:6-17 | the same check and insert; the answer is the inserted session's id |
| BackOffice.Store.Estado | backend/app/Http/Controllers/CajaController.php:29-40 | the estado, id and opening amount of the highest-id session, open or closed; nothing when there are no sessions |
| BackOffice.Store.EstadoCajaPhp | resources/php/caja/estado_caja.php:5-11 | the same answer as `Estado`; changes nothing |
| BackOffice.Store.RegistrarVenta | backend/app/Http/Controllers/CajaController.php:42-60 | a missing amount counts as 0.00. Amounts not above 0 answer `Monto inválido` and store nothing. Otherwise one sale is appended: next id, today, the amount, `metodo_pago` or `Efectivo` |
| BackOffice.Store.RegistrarVentaPhp | resources/php/caja/registrar_venta.php:5-18 | the same check; one sale with today's date and the amount, `metodo_pago` left to the column; answers the new id |
| BackOffice.Store.InsertVenta | backend/app/Http/Controllers/CajaController.php:49-53 | the INSERT of a positive sale appends exactly it with the next id and keeps the invariant |
| BackOffice.Store.Cerrar | backend/app/Http/Controllers/CajaController.php:62-85 | with no open session: `No hay caja abierta`, nothing changes. Otherwise only the highest-id open session is replaced by its closed form, with opening amount + sales since the opening day. No session is open afterwards; sales are untouched |
| BackOffice.Store.CerrarCajaPhp | resources/php/caja/cerrar_caja.php:5-22 | the same selection, `COALESCE(SUM)` and single-row UPDATE |
| BackOffice.Store.Generar | backend/app/Http/Controllers/ReciboController.php:12-42 | with no target sale: `No hay ventas`, no receipt. Otherwise exactly one receipt is appended for that sale: next id, IGV split, number, coerced tipo, PENDIENTE |
| BackOffice.Store.Insert | backend/app/Http/Controllers/ReciboController.php:34-42 | the INSERT appends exactly the given receipt and advances the id counter |
| BackOffice.Store.GenerarReciboPhp | resources/php/caja/generar_recibo.php:5-19 | always the highest-id sale and always BOLETA. With no sales: an error, and nothing is inserted |
| BackOffice.Store.EnviarSunat | backend/app/Http/Controllers/ReciboController.php:56-69 | with no pending receipt: `No hay recibos pendientes`, nothing changes. Otherwise the highest-id pending receipt becomes ENVIADO and no other receipt changes. One log entry (its id, `ENVIADO`) is appended and the pending count drops by one |
| BackOffice.Store.Send | resources/php/caja/enviar_sunat.php:15-21 | the UPDATE of one pending receipt and the INSERT of its log entry |
| BackOffice.Store.EnviarSunatPhp | resources/php/caja/enviar_sunat.php:5-21 | the same selection, UPDATE and log INSERT |
| BackOffice.Store.StorePedido | backend/app/Http/Controllers/PedidoController.php:16-31 | fails validation and stores nothing unless `mesa` is an integer and `detalle` a non-blank string. Otherwise exactly one order is appended in estado `pedido`, and its id is answered |
| BackOffice.Store.PedidoApiCreate | resources/js/pedido_api.php:8-30 | a missing or zero `mesa`, or a missing, empty or `"0"` `detalle`, answers `Mesa y detalle son requeridos` and inserts nothing. Otherwise exactly one order is appended in estado `pedido` |
| BackOffice.Store.InsertPedido | backend/app/Http/Controllers/PedidoController.php:23-28 | the INSERT appends exactly the new order with the next id, answers that id, and keeps the invariant |
| BackOffice.Store.UpdateStatus | backend/app/Http/Controllers/PedidoController.php:33-46 | a blank estado fails validation. An unknown id answers `Pedido no encontrado` and changes nothing. Otherwise the order's estado is overwritten and nothing else changes |
| BackOffice.Store.UpdateStatusFromPost | backend/app/Http/Controllers/PedidoController.php:48-62 | the same, with the id required from the body |
| BackOffice.Store.CocinaUpdate | resources/php/cocina_api.php:4-15 | only a kitchen session updates. The UPDATE runs on the given id whether or not it exists, and the answer is success for any kitchen session |
| BackOffice.Store.Index | backend/app/Http/Controllers/PedidoController.php:10-14 | every stored order, newest `fecha` first |
| BackOffice.Store.ListPedidos | resources/js/pedido_api.php:40-58 | the rows, copied one by one, are exactly `Index`: every order, newest first |
| BackOffice.Store.CocinaList | resources/php/cocina_api.php:4-25 | an empty list for anyone but a kitchen session; otherwise every order newest first; changes nothing |

## Left out

- HTTP, JSON encoding, sessions and response codes are not modelled. An endpoint's answer is a `Result` value or a `LoginResult`.
- Database failures are not modelled: a failed `prepare` or `execute`, or a `COALESCE` over a failed query. So the rule in `enviar_sunat.php` that writes the log entry only when the UPDATE succeeds reduces to always writing it.
- Floating point is not modelled. `floatval`, `round` and `number_format` on amounts become exact integer cents. The IGV split is exact in cents and has no ties, so PHP's half-away-from-zero rounding is modelled exactly.
- The conversion of request text to numbers is not modelled: `(int)$_POST['mesa']`, `floatval`, and Laravel's `integer` rule. A `mesa`, `monto` or `id` arrives already converted, as `Option<int>`.
- Laravel's request middleware (TrimStrings, ConvertEmptyStringsToNull) is not modelled. `required` is modelled as its own test: the field is present and not blank after `trim`.
- `BackOffice.Store.CocinaUpdate`: the missing-field case of `$_POST['id']` and `$_POST['estado']` is not modelled. The id and estado arrive as values.
- `Auth.Login`: the database collation is not modelled. The model compares `usuario` and `clave` exactly, while MySQL's default collation compares them case-insensitively. `strtolower` is modelled on ASCII letters only.
- The `metodo_pago` column default is not modelled: a sale inserted without it carries None.
- The clock is not modelled: every instant, day and date is a parameter. `Receipts.CalendarDate` restricts the receipt date to years of at most four digits, the only years `date('Ymd')` prints in 4 digits.
- The check-then-insert race in opening a session is not modelled. Every method is one sequential step on the store.
- Order cancellation and deletion, and the order-cost and detail parser, are not part of this model. No modelled controller or script implements them.
- `AdminController` (database-side aggregation), `MenuController` and `menu_api.php` (catalogue reads and writes), and `login.php` (the session-based duplicate of the credential lookup) are not part of this model.
- `PedidoController::updateStatus` is modelled although no route in `routes/api.php` reaches it.
