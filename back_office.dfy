/** The back office as one in-memory database: the `caja`, `venta`, `recibo`, `sunat_log`
    and `pedido` tables with their auto-increment ids, and one method per endpoint, for both
    the Laravel controllers and the older raw-PHP scripts. Clock reads arrive as parameters:
    `now` is an instant in seconds of local time, `today` a day number or a calendar date. */
module BackOffice {
  import opened Common
  import opened Tables
  import Ledger
  import Receipts
  import Orders

  /** The error answers of the endpoints. */
  datatype Failure =
    | CajaYaAbierta
    | MontoInvalido
    | SinCajaAbierta
    | SinVentas
    | SinRecibosPendientes
    | PedidoNoEncontrado
    | DatosIncompletos
    | ValidacionFallida
  {
    /** The message the endpoint answers with (a failed Laravel validation answers
        with the framework's own message, which is not part of this model). */
    function Message(): string
      requires !ValidacionFallida?
    {
      match this
      case CajaYaAbierta => "Ya existe una caja abierta"
      case MontoInvalido => "Monto inválido"
      case SinCajaAbierta => "No hay caja abierta"
      case SinVentas => "No hay ventas"
      case SinRecibosPendientes => "No hay recibos pendientes"
      case PedidoNoEncontrado => "Pedido no encontrado"
      case DatosIncompletos => "Mesa y detalle son requeridos"
    }
  }

  datatype Result<T> = Ok(value: T) | Err(failure: Failure)

  /** What the cash-status endpoints report about a session. */
  datatype CajaSnapshot = CajaSnapshot(estado: Ledger.CajaEstado, id: nat, montoInicial: int)

  function Snapshot(c: Ledger.Caja): CajaSnapshot
  {
    CajaSnapshot(c.estado, c.id, c.montoInicial)
  }

  /** The sale a receipt is generated for: `venta_id` when it is given and truthy
      (`if ($ventaId)`, so 0 counts as absent), otherwise the highest-id sale. */
  function TargetVenta(ventas: seq<Ledger.Venta>, ventaId: Option<int>): (r: Option<nat>)
    ensures ventaId.Some? && ventaId.value != 0 ==>
      (r.None? <==> forall i :: 0 <= i < |ventas| ==> ventas[i].id != ventaId.value)
    ensures ventaId.Some? && ventaId.value != 0 && r.Some? ==>
      r.value < |ventas| && ventas[r.value].id == ventaId.value
    ensures !(ventaId.Some? && ventaId.value != 0) ==>
      (r.None? <==> ventas == [])
    ensures !(ventaId.Some? && ventaId.value != 0) && r.Some? ==>
      r.value < |ventas| && forall i :: 0 <= i < |ventas| ==> ventas[i].id <= ventas[r.value].id
  {
    if ventaId.Some? && ventaId.value != 0 then FindKey(ventas, Ledger.VentaKey, ventaId.value)
    else Latest(ventas, Ledger.VentaKey)
  }

  /** The receipt refers to a stored sale and carries that sale's amount. */
  ghost predicate OfSale(r: Receipts.Recibo, ventas: seq<Ledger.Venta>)
  {
    exists j :: 0 <= j < |ventas| && ventas[j].id == r.ventaId && ventas[j].monto == r.total
  }

  /** Every receipt refers to a stored sale and carries that sale's amount. */
  ghost predicate ReceiptsOfSales(recibos: seq<Receipts.Recibo>, ventas: seq<Ledger.Venta>)
  {
    forall i :: 0 <= i < |recibos| ==> OfSale(recibos[i], ventas)
  }

  /** Every log entry names a receipt that is no longer pending, and no two entries name
      the same receipt. */
  ghost predicate LogOfSent(recibos: seq<Receipts.Recibo>, sunatLog: seq<Receipts.SunatLog>)
  {
    && (forall j :: 0 <= j < |sunatLog| ==>
          exists i :: 0 <= i < |recibos| && recibos[i].id == sunatLog[j].reciboId && !Receipts.IsPending(recibos[i]))
    && (forall j1, j2 :: 0 <= j1 < j2 < |sunatLog| ==> sunatLog[j1].reciboId != sunatLog[j2].reciboId)
  }

  /** The ledger's part of the database invariant: auto-increment ids in `caja` and
      `venta`, at most one open session, and positive sales. */
  ghost predicate LedgerInvariant(cajas: seq<Ledger.Caja>, ventas: seq<Ledger.Venta>, nextCajaId: int, nextVentaId: int)
  {
    && KeysAscending(cajas, Ledger.CajaKey, nextCajaId)
    && KeysAscending(ventas, Ledger.VentaKey, nextVentaId)
    && Ledger.AtMostOneOpen(cajas)
    && Ledger.AllPositive(ventas)
  }

  /** The receipts' part of the database invariant: auto-increment ids in `recibo` and
      `sunat_log`, well-formed receipts that refer to their sale, and one log entry per
      receipt no longer pending: each entry names a distinct sent receipt, and there are
      as many entries as sent receipts. */
  ghost predicate ReceiptInvariant(
    recibos: seq<Receipts.Recibo>, sunatLog: seq<Receipts.SunatLog>, ventas: seq<Ledger.Venta>,
    nextReciboId: int, nextLogId: int)
  {
    && KeysAscending(recibos, Receipts.ReciboKey, nextReciboId)
    && KeysAscending(sunatLog, Receipts.SunatLogKey, nextLogId)
    && Receipts.AllWellFormed(recibos)
    && ReceiptsOfSales(recibos, ventas)
    && LogOfSent(recibos, sunatLog)
    && |sunatLog| + Receipts.PendingCount(recibos) == |recibos|
  }

  /** Opening a session with the next id while none is open keeps the ledger invariant,
      and the new session is the open one. */
  lemma OpenKeepsLedger(
    cajas: seq<Ledger.Caja>, ventas: seq<Ledger.Venta>, nextCajaId: int, nextVentaId: int, c: Ledger.Caja)
    requires LedgerInvariant(cajas, ventas, nextCajaId, nextVentaId)
    requires !Ledger.HasOpen(cajas) && c.id == nextCajaId && Ledger.IsOpen(c)
    ensures LedgerInvariant(cajas + [c], ventas, nextCajaId + 1, nextVentaId)
    ensures Ledger.HasOpen(cajas + [c])
  {
    AppendKeepsAscending(cajas, Ledger.CajaKey, nextCajaId, c);
    Ledger.OpenKeepsAtMostOne(cajas, c);
    assert Ledger.IsOpen((cajas + [c])[|cajas|]);
  }

  /** Closing the open session keeps the ledger invariant and leaves no session open. */
  lemma CloseKeepsLedger(
    cajas: seq<Ledger.Caja>, ventas: seq<Ledger.Venta>, nextCajaId: int, nextVentaId: int, k: nat, c: Ledger.Caja)
    requires LedgerInvariant(cajas, ventas, nextCajaId, nextVentaId)
    requires k < |cajas| && Ledger.IsOpen(cajas[k]) && !Ledger.IsOpen(c) && c.id == cajas[k].id
    ensures LedgerInvariant(cajas[k := c], ventas, nextCajaId, nextVentaId)
    ensures !Ledger.HasOpen(cajas[k := c])
  {
    UpdateKeepsAscending(cajas, Ledger.CajaKey, nextCajaId, k, c);
    Ledger.CloseLeavesNoneOpen(cajas, k, c);
  }

  /** A positive sale with the next id keeps both the ledger's and the receipts'
      invariants: sales are never removed, so every receipt keeps its sale. */
  lemma SaleKeepsInvariants(
    cajas: seq<Ledger.Caja>, ventas: seq<Ledger.Venta>, recibos: seq<Receipts.Recibo>,
    sunatLog: seq<Receipts.SunatLog>, nextCajaId: int, nextVentaId: int, nextReciboId: int,
    nextLogId: int, v: Ledger.Venta)
    requires LedgerInvariant(cajas, ventas, nextCajaId, nextVentaId)
    requires ReceiptInvariant(recibos, sunatLog, ventas, nextReciboId, nextLogId)
    requires v.id == nextVentaId && v.monto > 0
    ensures LedgerInvariant(cajas, ventas + [v], nextCajaId, nextVentaId + 1)
    ensures ReceiptInvariant(recibos, sunatLog, ventas + [v], nextReciboId, nextLogId)
  {
    AppendKeepsAscending(ventas, Ledger.VentaKey, nextVentaId, v);
    forall i | 0 <= i < |recibos|
      ensures OfSale(recibos[i], ventas + [v])
    {
      var j :| 0 <= j < |ventas| && ventas[j].id == recibos[i].ventaId && ventas[j].monto == recibos[i].total;
      assert (ventas + [v])[j] == ventas[j];
    }
  }

  /** Inserting a well-formed pending receipt with the next id, for a stored sale, keeps
      the receipts' invariant, and adds one pending receipt. */
  lemma InsertKeepsReceipts(
    recibos: seq<Receipts.Recibo>, sunatLog: seq<Receipts.SunatLog>, ventas: seq<Ledger.Venta>,
    nextReciboId: int, nextLogId: int, rec: Receipts.Recibo)
    requires ReceiptInvariant(recibos, sunatLog, ventas, nextReciboId, nextLogId)
    requires rec.id == nextReciboId && Receipts.WellFormed(rec) && Receipts.IsPending(rec) && OfSale(rec, ventas)
    ensures ReceiptInvariant(recibos + [rec], sunatLog, ventas, nextReciboId + 1, nextLogId)
    ensures Receipts.PendingCount(recibos + [rec]) == Receipts.PendingCount(recibos) + 1
  {
    AppendKeepsAscending(recibos, Receipts.ReciboKey, nextReciboId, rec);
    Receipts.PendingCountAppend(recibos, rec);
    forall j | 0 <= j < |sunatLog|
      ensures exists i :: 0 <= i < |recibos + [rec]| && (recibos + [rec])[i].id == sunatLog[j].reciboId
                          && !Receipts.IsPending((recibos + [rec])[i])
    {
      var i :| 0 <= i < |recibos| && recibos[i].id == sunatLog[j].reciboId && !Receipts.IsPending(recibos[i]);
      assert (recibos + [rec])[i] == recibos[i];
    }
  }

  /** Marking a pending receipt sent and logging it with the next log id keeps the
      receipts' invariant, and leaves one pending receipt fewer. */
  lemma SendKeepsReceipts(
    recibos: seq<Receipts.Recibo>, sunatLog: seq<Receipts.SunatLog>, ventas: seq<Ledger.Venta>,
    nextReciboId: int, nextLogId: nat, k: nat)
    requires ReceiptInvariant(recibos, sunatLog, ventas, nextReciboId, nextLogId)
    requires k < |recibos| && Receipts.IsPending(recibos[k])
    ensures var sent := recibos[k := Receipts.MarkSent(recibos[k])];
      && ReceiptInvariant(sent, sunatLog + [Receipts.SunatLog(nextLogId, recibos[k].id, Receipts.Respuesta)],
                          ventas, nextReciboId, nextLogId + 1)
      && Receipts.PendingCount(sent) == Receipts.PendingCount(recibos) - 1
  {
    var entry := Receipts.SunatLog(nextLogId, recibos[k].id, Receipts.Respuesta);
    UpdateKeepsAscending(recibos, Receipts.ReciboKey, nextReciboId, k, Receipts.MarkSent(recibos[k]));
    AppendKeepsAscending(sunatLog, Receipts.SunatLogKey, nextLogId, entry);
    Receipts.MarkSentCount(recibos, k);
    Receipts.MarkSentKeepsWellFormed(recibos, k);
    assert OfSale(recibos[k], ventas);
    SendKeepsLogOfSent(recibos, sunatLog, nextReciboId, k, entry);
  }

  /** Logging the receipt just marked sent keeps every entry naming a distinct sent
      receipt: the receipt was pending, so no earlier entry names it. */
  lemma SendKeepsLogOfSent(
    recibos: seq<Receipts.Recibo>, sunatLog: seq<Receipts.SunatLog>, nextReciboId: int, k: nat,
    entry: Receipts.SunatLog)
    requires KeysAscending(recibos, Receipts.ReciboKey, nextReciboId) && LogOfSent(recibos, sunatLog)
    requires k < |recibos| && Receipts.IsPending(recibos[k]) && entry.reciboId == recibos[k].id
    ensures LogOfSent(recibos[k := Receipts.MarkSent(recibos[k])], sunatLog + [entry])
  {
    var sent, log := recibos[k := Receipts.MarkSent(recibos[k])], sunatLog + [entry];
    KeysOrdered(recibos, Receipts.ReciboKey, nextReciboId);
    forall j | 0 <= j < |sunatLog|
      ensures sunatLog[j].reciboId != entry.reciboId
      ensures exists i :: 0 <= i < |sent| && sent[i].id == log[j].reciboId && !Receipts.IsPending(sent[i])
    {
      var i :| 0 <= i < |recibos| && recibos[i].id == sunatLog[j].reciboId && !Receipts.IsPending(recibos[i]);
      assert i != k;
      if i < k {
        assert Receipts.ReciboKey(recibos[i]) < Receipts.ReciboKey(recibos[k]);
      } else {
        assert Receipts.ReciboKey(recibos[k]) < Receipts.ReciboKey(recibos[i]);
      }
      assert sent[i] == recibos[i] && log[j] == sunatLog[j];
    }
    assert sent[k].id == log[|sunatLog|].reciboId && !Receipts.IsPending(sent[k]);
  }

  class Store {
    var cajas: seq<Ledger.Caja>
    var ventas: seq<Ledger.Venta>
    var recibos: seq<Receipts.Recibo>
    var sunatLog: seq<Receipts.SunatLog>
    var pedidos: seq<Orders.Pedido>
    var nextCajaId: nat
    var nextVentaId: nat
    var nextReciboId: nat
    var nextLogId: nat
    var nextPedidoId: nat


    /** The database invariant: the ledger's, the receipts', and auto-increment ids in `pedido`. */
    ghost predicate Valid()
      reads this
    {
      && LedgerInvariant(cajas, ventas, nextCajaId, nextVentaId)
      && ReceiptInvariant(recibos, sunatLog, ventas, nextReciboId, nextLogId)
      && KeysAscending(pedidos, Orders.PedidoKey, nextPedidoId)
    }

    /** An empty database; MySQL's auto-increment starts at 1. */
    constructor ()
      ensures Valid()
      ensures cajas == [] && ventas == [] && recibos == [] && sunatLog == [] && pedidos == []
      ensures nextCajaId == 1 && nextVentaId == 1 && nextReciboId == 1 && nextLogId == 1 && nextPedidoId == 1
    {
      cajas, ventas, recibos, sunatLog, pedidos := [], [], [], [], [];
      nextCajaId, nextVentaId, nextReciboId, nextLogId, nextPedidoId := 1, 1, 1, 1, 1;
    }

    // ---------------------------------------------------------------- cash sessions

    /** `CajaController::abrir`: refused while any session is open; otherwise opens one
        with the given amount, or 100.00. */
    method Abrir(monto: Option<int>, now: int) returns (r: Result<nat>)
      requires Valid()
      modifies this`cajas, this`nextCajaId
      ensures Valid()
      ensures Ledger.HasOpen(old(cajas)) ==>
        r == Err(CajaYaAbierta) && cajas == old(cajas) && nextCajaId == old(nextCajaId)
      ensures !Ledger.HasOpen(old(cajas)) ==>
        && r == Ok(old(nextCajaId))
        && cajas == old(cajas) + [Ledger.NewCaja(old(nextCajaId), now, Ledger.OpeningAmount(monto))]
        && nextCajaId == old(nextCajaId) + 1
      ensures Ledger.HasOpen(cajas)
    {
      if Ledger.HasOpen(cajas) {
        return Err(CajaYaAbierta);
      }
      var caja := Ledger.NewCaja(nextCajaId, now, Ledger.OpeningAmount(monto));
      OpenKeepsLedger(cajas, ventas, nextCajaId, nextVentaId, caja);
      cajas := cajas + [caja];
      r := Ok(nextCajaId);
      nextCajaId := nextCajaId + 1;
    }

    /** `abrir_caja.php`: the same check and insert; the answer carries the inserted id. */
    method AbrirCajaPhp(monto: Option<int>, now: int) returns (r: Result<nat>)
      requires Valid()
      modifies this`cajas, this`nextCajaId
      ensures Valid()
      ensures Ledger.HasOpen(old(cajas)) ==>
        r == Err(CajaYaAbierta) && cajas == old(cajas) && nextCajaId == old(nextCajaId)
      ensures !Ledger.HasOpen(old(cajas)) ==>
        && r == Ok(old(nextCajaId))
        && cajas == old(cajas) + [Ledger.NewCaja(old(nextCajaId), now, Ledger.OpeningAmount(monto))]
        && cajas[|cajas| - 1].id == r.value
        && nextCajaId == old(nextCajaId) + 1
    {
      r := Abrir(monto, now);
    }

    /** `CajaController::estado`: the highest-id session whatever its state, or nothing. */
    function Estado(): (r: Option<CajaSnapshot>)
      reads this
      ensures r.None? <==> cajas == []
      ensures r.Some? ==> exists k ::
        && 0 <= k < |cajas| && r.value == Snapshot(cajas[k])
        && forall i :: 0 <= i < |cajas| ==> cajas[i].id <= cajas[k].id
    {
      match Latest(cajas, Ledger.CajaKey)
      case None => None
      case Some(k) => Some(Snapshot(cajas[k]))
    }

    /** `estado_caja.php`: the same read as `Estado`, changing nothing. */
    method EstadoCajaPhp() returns (r: Option<CajaSnapshot>)
      ensures r == Estado()
      ensures r.Some? ==> exists k :: 0 <= k < |cajas| && r.value == Snapshot(cajas[k])
    {
      var k := Latest(cajas, Ledger.CajaKey);
      if k.None? {
        r := None;
      } else {
        r := Some(Snapshot(cajas[k.value]));
      }
    }

    /** `CajaController::registrarVenta`: a missing amount counts as 0.00; amounts not
        above zero are refused; a valid sale is dated today, with `metodo_pago`
        defaulting to `Efectivo`. */
    method RegistrarVenta(monto: Option<int>, metodoPago: Option<string>, now: int) returns (r: Result<nat>)
      requires Valid()
      modifies this`ventas, this`nextVentaId
      ensures Valid()
      ensures monto.GetOr(0) <= 0 ==>
        r == Err(MontoInvalido) && ventas == old(ventas) && nextVentaId == old(nextVentaId)
      ensures monto.GetOr(0) > 0 ==>
        && r == Ok(old(nextVentaId))
        && ventas == old(ventas) + [Ledger.Venta(old(nextVentaId), Ledger.DayOf(now), monto.value,
                                                  Some(metodoPago.GetOr(Ledger.DefaultMetodoPago)))]
        && nextVentaId == old(nextVentaId) + 1
    {
      var amount := monto.GetOr(0);
      if amount <= 0 {
        return Err(MontoInvalido);
      }
      r := InsertVenta(amount, Ledger.DayOf(now), Some(metodoPago.GetOr(Ledger.DefaultMetodoPago)));
    }

    /** `registrar_venta.php`: the same check; the insert sets only `fecha = CURDATE()`
        and `monto`, leaving `metodo_pago` to the column default. */
    method RegistrarVentaPhp(monto: Option<int>, today: int) returns (r: Result<nat>)
      requires Valid()
      modifies this`ventas, this`nextVentaId
      ensures Valid()
      ensures monto.GetOr(0) <= 0 ==>
        r == Err(MontoInvalido) && ventas == old(ventas) && nextVentaId == old(nextVentaId)
      ensures monto.GetOr(0) > 0 ==>
        && r == Ok(old(nextVentaId))
        && ventas == old(ventas) + [Ledger.Venta(old(nextVentaId), today, monto.value, None)]
        && nextVentaId == old(nextVentaId) + 1
    {
      var amount := monto.GetOr(0);
      if amount <= 0 {
        return Err(MontoInvalido);
      }
      r := InsertVenta(amount, today, None);
    }

    /** The INSERT into `venta` both endpoints share. */
    method InsertVenta(amount: int, fecha: int, metodoPago: Option<string>) returns (r: Result<nat>)
      requires Valid() && amount > 0
      modifies this`ventas, this`nextVentaId
      ensures Valid()
      ensures r == Ok(old(nextVentaId))
      ensures ventas == old(ventas) + [Ledger.Venta(old(nextVentaId), fecha, amount, metodoPago)]
      ensures nextVentaId == old(nextVentaId) + 1
    {
      var venta := Ledger.Venta(nextVentaId, fecha, amount, metodoPago);
      SaleKeepsInvariants(cajas, ventas, recibos, sunatLog, nextCajaId, nextVentaId, nextReciboId, nextLogId, venta);
      ventas := ventas + [venta];
      r := Ok(nextVentaId);
      nextVentaId := nextVentaId + 1;
    }

    /** `CajaController::cerrar`: closes the highest-id open session with its opening
        amount plus every sale dated on or after its opening day; with no open session
        it answers an error and changes nothing. Either way no session is open afterwards. */
    method Cerrar(now: int) returns (r: Result<int>)
      requires Valid()
      modifies this`cajas
      ensures Valid()
      ensures var k := LatestIndex(old(cajas), Ledger.CajaKey, Ledger.IsOpen);
        && (k.None? ==> r == Err(SinCajaAbierta) && cajas == old(cajas))
        && (k.Some? ==>
              var c := old(cajas)[k.value];
              var total := Ledger.ClosingAmount(c, ventas);
              r == Ok(total) && cajas == old(cajas)[k.value := Ledger.Closed(c, now, total)])
      ensures !Ledger.HasOpen(cajas)
    {
      var k := LatestIndex(cajas, Ledger.CajaKey, Ledger.IsOpen);
      if k.None? {
        return Err(SinCajaAbierta);
      }
      var c := cajas[k.value];
      var total := Ledger.ClosingAmount(c, ventas);
      var closed := Ledger.Closed(c, now, total);
      CloseKeepsLedger(cajas, ventas, nextCajaId, nextVentaId, k.value, closed);
      cajas := cajas[k.value := closed];
      r := Ok(total);
    }

    /** `cerrar_caja.php`: the same selection, sum (COALESCE to 0) and single-row UPDATE. */
    method CerrarCajaPhp(now: int) returns (r: Result<int>)
      requires Valid()
      modifies this`cajas
      ensures Valid()
      ensures var k := LatestIndex(old(cajas), Ledger.CajaKey, Ledger.IsOpen);
        && (k.None? ==> r == Err(SinCajaAbierta) && cajas == old(cajas))
        && (k.Some? ==>
              var c := old(cajas)[k.value];
              var total := Ledger.ClosingAmount(c, ventas);
              r == Ok(total) && cajas == old(cajas)[k.value := Ledger.Closed(c, now, total)])
    {
      r := Cerrar(now);
    }

    // ---------------------------------------------------------------- receipts

    /** `ReciboController::generar`: a receipt for the chosen sale, with the IGV split,
        the number `R` + date + padded sale id, the coerced tipo and estado PENDIENTE. */
    method Generar(ventaId: Option<int>, tipo: Option<string>, today: Receipts.CalendarDate)
      returns (r: Result<Receipts.Recibo>)
      requires Valid()
      modifies this`recibos, this`nextReciboId
      ensures Valid()
      ensures var k := TargetVenta(ventas, ventaId);
        && (k.None? ==> r == Err(SinVentas) && recibos == old(recibos) && nextReciboId == old(nextReciboId))
        && (k.Some? ==>
              var v := ventas[k.value];
              var rec := Receipts.NewRecibo(old(nextReciboId), v.id, v.monto, Receipts.CoerceTipo(tipo), today);
              && r == Ok(rec)
              && recibos == old(recibos) + [rec]
              && nextReciboId == old(nextReciboId) + 1)
    {
      var k := TargetVenta(ventas, ventaId);
      if k.None? {
        return Err(SinVentas);
      }
      var v := ventas[k.value];
      var rec := Receipts.NewRecibo(nextReciboId, v.id, v.monto, Receipts.CoerceTipo(tipo), today);
      Receipts.NewReciboWellFormed(nextReciboId, v.id, v.monto, Receipts.CoerceTipo(tipo), today);
      assert OfSale(rec, ventas);
      Insert(rec);
      r := Ok(rec);
    }

    /** The INSERT into `recibo` both endpoints share: a well-formed pending receipt for
        a stored sale, with the next id. */
    method Insert(rec: Receipts.Recibo)
      requires Valid() && rec.id == nextReciboId
      requires Receipts.WellFormed(rec) && Receipts.IsPending(rec) && OfSale(rec, ventas)
      modifies this`recibos, this`nextReciboId
      ensures Valid()
      ensures recibos == old(recibos) + [rec]
      ensures nextReciboId == old(nextReciboId) + 1
    {
      InsertKeepsReceipts(recibos, sunatLog, ventas, nextReciboId, nextLogId, rec);
      recibos := recibos + [rec];
      nextReciboId := nextReciboId + 1;
    }

    /** `generar_recibo.php`: always the highest-id sale, always BOLETA. */
    method GenerarReciboPhp(today: Receipts.CalendarDate) returns (r: Result<Receipts.Recibo>)
      requires Valid()
      modifies this`recibos, this`nextReciboId
      ensures Valid()
      ensures ventas == [] ==> r == Err(SinVentas) && recibos == old(recibos) && nextReciboId == old(nextReciboId)
      ensures ventas != [] ==>
        && (exists k ::
             && 0 <= k < |ventas| && (forall i :: 0 <= i < |ventas| ==> ventas[i].id <= ventas[k].id)
             && r == Ok(Receipts.NewRecibo(old(nextReciboId), ventas[k].id, ventas[k].monto, Receipts.Boleta, today))
             && recibos == old(recibos) + [r.value])
        && nextReciboId == old(nextReciboId) + 1
    {
      r := Generar(None, None, today);
    }

    /** `ReciboController::enviarSunat`: marks the highest-id pending receipt as sent
        and logs it; with none pending it answers an error and changes nothing. */
    method EnviarSunat() returns (r: Result<nat>)
      requires Valid()
      modifies this`recibos, this`sunatLog, this`nextLogId
      ensures Valid()
      ensures var k := LatestIndex(old(recibos), Receipts.ReciboKey, Receipts.IsPending);
        && (k.None? ==>
              r == Err(SinRecibosPendientes) && recibos == old(recibos)
              && sunatLog == old(sunatLog) && nextLogId == old(nextLogId))
        && (k.Some? ==>
              var rec := old(recibos)[k.value];
              && r == Ok(rec.id)
              && recibos == old(recibos)[k.value := Receipts.MarkSent(rec)]
              && sunatLog == old(sunatLog) + [Receipts.SunatLog(old(nextLogId), rec.id, Receipts.Respuesta)]
              && nextLogId == old(nextLogId) + 1
              && Receipts.PendingCount(recibos) == Receipts.PendingCount(old(recibos)) - 1)
    {
      var k := LatestIndex(recibos, Receipts.ReciboKey, Receipts.IsPending);
      if k.None? {
        return Err(SinRecibosPendientes);
      }
      var id := Send(k.value);
      r := Ok(id);
    }

    /** The UPDATE of one pending receipt to ENVIADO and the INSERT of its log entry,
        which both endpoints share. */
    method Send(k: nat) returns (id: nat)
      requires Valid() && k < |recibos| && Receipts.IsPending(recibos[k])
      modifies this`recibos, this`sunatLog, this`nextLogId
      ensures Valid()
      ensures id == old(recibos)[k].id
      ensures recibos == old(recibos)[k := Receipts.MarkSent(old(recibos)[k])]
      ensures sunatLog == old(sunatLog) + [Receipts.SunatLog(old(nextLogId), id, Receipts.Respuesta)]
      ensures nextLogId == old(nextLogId) + 1
      ensures Receipts.PendingCount(recibos) == Receipts.PendingCount(old(recibos)) - 1
    {
      var rec := recibos[k];
      SendKeepsReceipts(recibos, sunatLog, ventas, nextReciboId, nextLogId, k);
      recibos := recibos[k := Receipts.MarkSent(rec)];
      sunatLog := sunatLog + [Receipts.SunatLog(nextLogId, rec.id, Receipts.Respuesta)];
      nextLogId := nextLogId + 1;
      id := rec.id;
    }

    /** `enviar_sunat.php`: the same selection, UPDATE and log INSERT. */
    method EnviarSunatPhp() returns (r: Result<nat>)
      requires Valid()
      modifies this`recibos, this`sunatLog, this`nextLogId
      ensures Valid()
      ensures var k := LatestIndex(old(recibos), Receipts.ReciboKey, Receipts.IsPending);
        && (k.None? ==>
              r == Err(SinRecibosPendientes) && recibos == old(recibos)
              && sunatLog == old(sunatLog) && nextLogId == old(nextLogId))
        && (k.Some? ==>
              var rec := old(recibos)[k.value];
              && r == Ok(rec.id)
              && recibos == old(recibos)[k.value := Receipts.MarkSent(rec)]
              && sunatLog == old(sunatLog) + [Receipts.SunatLog(old(nextLogId), rec.id, Receipts.Respuesta)]
              && nextLogId == old(nextLogId) + 1)
    {
      r := EnviarSunat();
    }

    // ---------------------------------------------------------------- orders

    /** `PedidoController::store`: validation, then a new order in estado `pedido`. */
    method StorePedido(mesa: Option<int>, detalle: Option<string>, now: int) returns (r: Result<nat>)
      requires Valid()
      modifies this`pedidos, this`nextPedidoId
      ensures Valid()
      ensures !Orders.StoreRequestValid(mesa, detalle) ==>
        r == Err(ValidacionFallida) && pedidos == old(pedidos) && nextPedidoId == old(nextPedidoId)
      ensures Orders.StoreRequestValid(mesa, detalle) ==>
        && r == Ok(old(nextPedidoId))
        && pedidos == old(pedidos) + [Orders.NewPedido(old(nextPedidoId), mesa.value, detalle.value, now)]
        && nextPedidoId == old(nextPedidoId) + 1
    {
      if !Orders.StoreRequestValid(mesa, detalle) {
        return Err(ValidacionFallida);
      }
      r := InsertPedido(mesa.value, detalle.value, now);
    }

    /** `pedido_api.php` (POST): a zero or missing table, or an empty, "0" or missing
        detail, is refused; otherwise a new order in estado `pedido`. */
    method PedidoApiCreate(mesa: Option<int>, detalle: Option<string>, now: int) returns (r: Result<nat>)
      requires Valid()
      modifies this`pedidos, this`nextPedidoId
      ensures Valid()
      ensures !Orders.ApiRequestValid(mesa, detalle) ==>
        r == Err(DatosIncompletos) && pedidos == old(pedidos) && nextPedidoId == old(nextPedidoId)
      ensures Orders.ApiRequestValid(mesa, detalle) ==>
        && r == Ok(old(nextPedidoId))
        && pedidos == old(pedidos) + [Orders.NewPedido(old(nextPedidoId), mesa.value, detalle.value, now)]
        && nextPedidoId == old(nextPedidoId) + 1
    {
      if !Orders.ApiRequestValid(mesa, detalle) {
        return Err(DatosIncompletos);
      }
      r := InsertPedido(mesa.value, detalle.value, now);
    }

    /** The INSERT into `pedido` both endpoints share. */
    method InsertPedido(mesa: int, detalle: string, now: int) returns (r: Result<nat>)
      requires Valid()
      modifies this`pedidos, this`nextPedidoId
      ensures Valid()
      ensures r == Ok(old(nextPedidoId))
      ensures pedidos == old(pedidos) + [Orders.NewPedido(old(nextPedidoId), mesa, detalle, now)]
      ensures nextPedidoId == old(nextPedidoId) + 1
    {
      var p := Orders.NewPedido(nextPedidoId, mesa, detalle, now);
      AppendKeepsAscending(pedidos, Orders.PedidoKey, nextPedidoId, p);
      pedidos := pedidos + [p];
      r := Ok(nextPedidoId);
      nextPedidoId := nextPedidoId + 1;
    }

    /** `PedidoController::updateStatus`: after `estado` passes `required|string`, the
        order with the id gets that estado, with no transition check; an unknown id
        answers 404 and changes nothing. */
    method UpdateStatus(id: int, estado: Option<string>) returns (r: Result<()>)
      requires Valid()
      modifies this`pedidos
      ensures Valid()
      ensures !FilledField(estado) ==> r == Err(ValidacionFallida) && pedidos == old(pedidos)
      ensures FilledField(estado) && !Orders.HasId(old(pedidos), id) ==>
        r == Err(PedidoNoEncontrado) && pedidos == old(pedidos)
      ensures FilledField(estado) && Orders.HasId(old(pedidos), id) ==>
        r == Ok(()) && pedidos == Orders.SetEstado(old(pedidos), id, estado.value)
    {
      if !FilledField(estado) {
        return Err(ValidacionFallida);
      }
      var k := FindKey(pedidos, Orders.PedidoKey, id);
      if k.None? {
        return Err(PedidoNoEncontrado);
      }
      Orders.SetEstadoKeepsKeys(pedidos, nextPedidoId, id, estado.value);
      pedidos := Orders.SetEstado(pedidos, id, estado.value);
      r := Ok(());
    }

    /** `PedidoController::updateStatusFromPost`: the same, with the id taken from the
        body and required to be an integer. */
    method UpdateStatusFromPost(id: Option<int>, estado: Option<string>) returns (r: Result<()>)
      requires Valid()
      modifies this`pedidos
      ensures Valid()
      ensures !(id.Some? && FilledField(estado)) ==> r == Err(ValidacionFallida) && pedidos == old(pedidos)
      ensures id.Some? && FilledField(estado) && !Orders.HasId(old(pedidos), id.value) ==>
        r == Err(PedidoNoEncontrado) && pedidos == old(pedidos)
      ensures id.Some? && FilledField(estado) && Orders.HasId(old(pedidos), id.value) ==>
        r == Ok(()) && pedidos == Orders.SetEstado(old(pedidos), id.value, estado.value)
    {
      if id.None? {
        return Err(ValidacionFallida);
      }
      r := UpdateStatus(id.value, estado);
    }

    /** `cocina_api.php` (POST): only a kitchen session may update; the update runs on
        whatever id is given and reports success either way. */
    method CocinaUpdate(usuario: Option<string>, tipo: Option<string>, id: int, estado: string)
      returns (ok: bool)
      requires Valid()
      modifies this`pedidos
      ensures Valid()
      ensures ok == Orders.KitchenAllowed(usuario, tipo)
      ensures pedidos == if ok then Orders.SetEstado(old(pedidos), id, estado) else old(pedidos)
    {
      if !Orders.KitchenAllowed(usuario, tipo) {
        return false;
      }
      Orders.SetEstadoKeepsKeys(pedidos, nextPedidoId, id, estado);
      pedidos := Orders.SetEstado(pedidos, id, estado);
      ok := true;
    }

    /** `PedidoController::index`: every order, newest first. */
    function Index(): (r: seq<Orders.Pedido>)
      reads this
      ensures Orders.NewestFirst(r)
      ensures multiset(r) == multiset(pedidos)
    {
      Orders.SortSorted(pedidos);
      Orders.SortPermutes(pedidos);
      Orders.SortNewestFirst(pedidos)
    }

    /** `pedido_api.php` (GET): the rows of `ORDER BY fecha DESC`, copied one by one
        into the answer. */
    method ListPedidos() returns (rows: seq<Orders.Pedido>)
      ensures rows == Index()
      ensures Orders.NewestFirst(rows) && multiset(rows) == multiset(pedidos)
    {
      var result := Index();
      rows := [];
      var i := 0;
      while i < |result|
        invariant 0 <= i <= |result|
        invariant rows == result[..i]
      {
        rows := rows + [result[i]];
        i := i + 1;
      }
    }

    /** `cocina_api.php` (GET): nothing for anyone but a kitchen session, otherwise every
        order newest first. */
    method CocinaList(usuario: Option<string>, tipo: Option<string>) returns (rows: seq<Orders.Pedido>)
      ensures !Orders.KitchenAllowed(usuario, tipo) ==> rows == []
      ensures Orders.KitchenAllowed(usuario, tipo) ==>
        rows == Index() && Orders.NewestFirst(rows) && multiset(rows) == multiset(pedidos)
    {
      if !Orders.KitchenAllowed(usuario, tipo) {
        return [];
      }
      rows := ListPedidos();
    }
  }
}
