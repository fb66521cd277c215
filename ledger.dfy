/** The cash-register ledger: cash sessions (`caja`) and sales (`venta`).
    Money is in integer cents; instants are seconds of local time and dates are day numbers. */
module Ledger {
  import opened Common

  const SecondsPerDay: int := 86400

  /** The opening amount used when the request carries no `monto`: 100.00. */
  const DefaultOpeningAmount: int := 10000

  /** The `metodo_pago` stored when the request carries none. */
  const DefaultMetodoPago: string := "Efectivo"

  datatype CajaEstado = Abierta | Cerrada
  {
    /** The string stored in the `estado` column. */
    function Name(): string
    {
      match this
      case Abierta => "ABIERTA"
      case Cerrada => "CERRADA"
    }
  }

  /** A row of `caja`: a cash session. `fechaCierre` and `montoFinal` stay empty until it is closed. */
  datatype Caja = Caja(
    id: nat,
    fechaApertura: int,
    montoInicial: int,
    estado: CajaEstado,
    fechaCierre: Option<int>,
    montoFinal: Option<int>)

  /** A row of `venta`: a sale dated by day. `metodoPago` is None where the
      insert leaves the column to its default. */
  datatype Venta = Venta(id: nat, fecha: int, monto: int, metodoPago: Option<string>)

  function CajaKey(c: Caja): int { c.id }
  function VentaKey(v: Venta): int { v.id }

  predicate IsOpen(c: Caja) { c.estado == Abierta }

  /** The calendar day of an instant (`date('Y-m-d', ...)`, `toDateString()`, `CURDATE()`). */
  function DayOf(t: int): (d: int)
    ensures d * SecondsPerDay <= t < (d + 1) * SecondsPerDay
  {
    t / SecondsPerDay
  }

  /** `Caja::where('estado', 'ABIERTA')->exists()`. */
  predicate HasOpen(cajas: seq<Caja>)
  {
    exists i :: 0 <= i < |cajas| && IsOpen(cajas[i])
  }

  /** The ledger's invariant: at most one session is open. */
  ghost predicate AtMostOneOpen(cajas: seq<Caja>)
  {
    forall i, j :: 0 <= i < |cajas| && 0 <= j < |cajas| && IsOpen(cajas[i]) && IsOpen(cajas[j]) ==> i == j
  }

  /** Every stored sale has a positive amount. */
  ghost predicate AllPositive(ventas: seq<Venta>)
  {
    forall i :: 0 <= i < |ventas| ==> ventas[i].monto > 0
  }

  /** The opening amount of a request: the given `monto`, or 100.00. */
  function OpeningAmount(monto: Option<int>): (a: int)
    ensures monto.None? ==> a == DefaultOpeningAmount
    ensures monto.Some? ==> a == monto.value
  {
    monto.GetOr(DefaultOpeningAmount)
  }

  /** A freshly opened session. */
  function NewCaja(id: nat, now: int, montoInicial: int): Caja
  {
    Caja(id, now, montoInicial, Abierta, None, None)
  }

  /** `SUM(monto) FROM venta WHERE fecha >= day` (0 when no row qualifies). */
  function SumSince(ventas: seq<Venta>, day: int): int
  {
    if ventas == [] then 0
    else
      var last := ventas[|ventas| - 1];
      SumSince(ventas[..|ventas| - 1], day) + (if last.fecha >= day then last.monto else 0)
  }

  /** The amount a session is closed with: its opening amount plus every sale
      dated on or after the day it was opened. */
  function ClosingAmount(caja: Caja, ventas: seq<Venta>): int
  {
    caja.montoInicial + SumSince(ventas, DayOf(caja.fechaApertura))
  }

  /** The session as it is saved by closing it at `now`. */
  function Closed(caja: Caja, now: int, montoFinal: int): (c: Caja)
    ensures c.id == caja.id && c.fechaApertura == caja.fechaApertura && c.montoInicial == caja.montoInicial
    ensures !IsOpen(c) && c.fechaCierre == Some(now) && c.montoFinal == Some(montoFinal)
  {
    caja.(fechaCierre := Some(now), montoFinal := Some(montoFinal), estado := Cerrada)
  }

  /** The sales total splits over any division of the table into an older and a newer part. */
  lemma {:induction false} SumSinceConcat(a: seq<Venta>, b: seq<Venta>, day: int)
    ensures SumSince(a + b, day) == SumSince(a, day) + SumSince(b, day)
    decreases |b|
  {
    if b != [] {
      var ab := a + b;
      assert ab[..|ab| - 1] == a + b[..|b| - 1];
      SumSinceConcat(a, b[..|b| - 1], day);
    } else {
      assert a + b == a;
    }
  }

  /** With positive amounts the total is zero exactly when no sale is dated on or
      after the day, and positive otherwise. */
  lemma {:induction false} SumSinceZeroIff(ventas: seq<Venta>, day: int)
    requires AllPositive(ventas)
    ensures SumSince(ventas, day) >= 0
    ensures SumSince(ventas, day) == 0 <==> forall i :: 0 <= i < |ventas| ==> ventas[i].fecha < day
  {
    if ventas != [] {
      var n := |ventas| - 1;
      var prefix := ventas[..n];
      assert AllPositive(prefix);
      SumSinceZeroIff(prefix, day);
      assert forall i :: 0 <= i < n ==> prefix[i] == ventas[i];
    }
  }

  /** Moving the window's start later never increases the total (amounts positive). */
  lemma {:induction false} SumSinceAntitone(ventas: seq<Venta>, d1: int, d2: int)
    requires AllPositive(ventas) && d1 <= d2
    ensures SumSince(ventas, d2) <= SumSince(ventas, d1)
  {
    if ventas != [] {
      var prefix := ventas[..|ventas| - 1];
      assert AllPositive(prefix);
      SumSinceAntitone(prefix, d1, d2);
    }
  }

  /** A sale registered after the session opened (dated today, on or after the
      opening day) adds exactly its amount to the closing amount. */
  lemma SaleAddsToClosing(caja: Caja, ventas: seq<Venta>, v: Venta)
    requires v.fecha >= DayOf(caja.fechaApertura)
    ensures ClosingAmount(caja, ventas + [v]) == ClosingAmount(caja, ventas) + v.monto
  {
    assert (ventas + [v])[..|ventas|] == ventas;
  }

  /** Opening a session when none is open keeps at most one open. */
  lemma OpenKeepsAtMostOne(cajas: seq<Caja>, c: Caja)
    requires !HasOpen(cajas)
    ensures AtMostOneOpen(cajas + [c])
  {
  }

  /** Closing the open session of a ledger with at most one open leaves none open. */
  lemma CloseLeavesNoneOpen(cajas: seq<Caja>, k: nat, c: Caja)
    requires AtMostOneOpen(cajas) && k < |cajas| && IsOpen(cajas[k]) && !IsOpen(c)
    ensures !HasOpen(cajas[k := c])
  {
  }
}
