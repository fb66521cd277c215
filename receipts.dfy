/** Receipts (`recibo`) derived from a sale, and their simulated submission to SUNAT,
    the Peruvian tax authority, recorded in `sunat_log`. Amounts are integer cents. */
module Receipts {
  import opened Common
  import opened Decimal

  /** IGV, the Peruvian value-added tax, is 18%: a total is 118 parts, the subtotal 100 of them. */
  const IgvPercent: int := 18

  /** A receipt's subtotal and IGV. */
  datatype Split = Split(subtotal: int, igv: int)

  /** `subtotal = round(total / 1.18, 2)` and `igv = round(total - subtotal, 2)`, in cents.
      PHP rounds halves away from zero; in cents no half ever arises (see `NoHalfCents`),
      so the subtotal is simply the cent nearest to `total / 1.18`. */
  function IgvSplit(total: int): (r: Split)
    ensures r.subtotal + r.igv == total
    ensures -59 < 118 * r.subtotal - 100 * total < 59
    ensures -59 < 100 * r.igv - IgvPercent * r.subtotal < 59
    ensures total >= 0 ==> 0 <= r.subtotal <= total && 0 <= r.igv <= total
    ensures total <= 0 ==> total <= r.subtotal <= 0 && total <= r.igv <= 0
  {
    var magnitude := if total >= 0 then total else -total;
    NearestCentBounds(magnitude);
    var q := (100 * magnitude + 59) / 118;
    var subtotal := if total >= 0 then q else -q;
    Split(subtotal, total - subtotal)
  }

  /** Rounding `100 m / 118` up from the half: the result is within half a cent, never
      above `m`. */
  lemma NearestCentBounds(m: nat)
    ensures var q := (100 * m + 59) / 118;
      0 <= q <= m && -59 < 118 * q - 100 * m < 59
  {
    var q := (100 * m + 59) / 118;
    assert 118 * q <= 100 * m + 59 < 118 * q + 118;
    // an even number of cents on the left, an odd one on the right
    var even, odd := 59 * q, 50 * m + 29;
    assert 118 * q == 2 * even && 100 * m + 59 == 2 * odd + 1;
  }

  /** `total / 1.18` never lies exactly halfway between two cents, so the rounding
      mode cannot matter. */
  lemma NoHalfCents(total: int, s: int)
    ensures 118 * s - 100 * total != 59 && 118 * s - 100 * total != -59
  {
    assert (118 * s - 100 * total) % 2 == 0;
  }

  /** The subtotal is the only cent amount within half a cent of `total / 1.18`. */
  lemma SubtotalIsNearestCent(total: int, s: int)
    requires -59 <= 118 * s - 100 * total <= 59
    ensures s == IgvSplit(total).subtotal
  {
    var t := IgvSplit(total).subtotal;
    assert -118 < 118 * (s - t) < 118;
  }

  /** A sale of 118.00 splits into 100.00 and 18.00 of IGV. */
  lemma IgvSplitExample()
    ensures IgvSplit(11800) == Split(10000, 1800)
  {
  }

  /** The tipo of a receipt. */
  datatype Tipo = Boleta | Factura
  {
    function Name(): string
    {
      match this
      case Boleta => "BOLETA"
      case Factura => "FACTURA"
    }
  }

  /** `tipo` defaults to BOLETA, and anything other than BOLETA or FACTURA becomes BOLETA. */
  function CoerceTipo(tipo: Option<string>): (r: Tipo)
    ensures r == Factura <==> tipo == Some("FACTURA")
  {
    var given := tipo.GetOr(Boleta.Name());
    var kept := if given in [Boleta.Name(), Factura.Name()] then given else Boleta.Name();
    if kept == Factura.Name() then Factura else Boleta
  }

  /** Each tipo's own name is kept as it is, so coercing twice is coercing once. */
  lemma CoerceTipoKeepsNames(t: Tipo, tipo: Option<string>)
    ensures CoerceTipo(Some(t.Name())) == t
    ensures CoerceTipo(Some(CoerceTipo(tipo).Name())) == CoerceTipo(tipo)
  {
  }

  /** A calendar date, as `date('Ymd')` prints it. */
  datatype CivilDate = CivilDate(year: nat, month: nat, day: nat)

  /** A date whose year, month and day fit `Y`, `m` and `d` in 4, 2 and 2 digits. */
  predicate FitsYmd(d: CivilDate)
  {
    d.year <= 9999 && 1 <= d.month <= 12 && 1 <= d.day <= 31
  }

  /** A calendar date the clock can give: a four-digit year. */
  type CalendarDate = d: CivilDate | FitsYmd(d) witness CivilDate(2024, 1, 1)

  /** `date('Ymd')`: the year padded to at least 4 digits, month and day to 2. */
  function Ymd(d: CivilDate): string
  {
    PadNat(d.year, 4) + PadNat(d.month, 2) + PadNat(d.day, 2)
  }

  /** The width the sale id is padded to. */
  const IdWidth: nat := 6

  /** `'R' . date('Ymd') . str_pad($ventaId, 6, '0', STR_PAD_LEFT)`. */
  function Numero(today: CivilDate, ventaId: nat): string
  {
    "R" + Ymd(today) + PadNat(ventaId, IdWidth)
  }

  /** Sale 7 on 5 March 2024 is numbered R20240305000007. */
  lemma NumeroExample()
    ensures Numero(CivilDate(2024, 3, 5), 7) == "R20240305000007"
  {
  }

  /** Where the parts of a receipt number lie: `R`, then 4, 2 and 2 date digits, then
      the padded sale id. */
  lemma NumeroLayout(today: CivilDate, ventaId: nat)
    requires FitsYmd(today)
    ensures var n := Numero(today, ventaId);
      && |n| == 9 + |PadNat(ventaId, IdWidth)| && n[0] == 'R'
      && n[1..5] == PadNat(today.year, 4) && n[5..7] == PadNat(today.month, 2)
      && n[7..9] == PadNat(today.day, 2) && n[9..] == PadNat(ventaId, IdWidth)
  {
    PadNatLength(today.year, 4);
    PadNatLength(today.month, 2);
    PadNatLength(today.day, 2);
    ConcatParts("R", PadNat(today.year, 4), PadNat(today.month, 2), PadNat(today.day, 2), PadNat(ventaId, IdWidth));
  }

  /** The slices of a concatenation of five strings are its parts. */
  lemma ConcatParts(a: string, b: string, c: string, d: string, e: string)
    ensures var n := a + (b + c + d) + e;
      var i, j, k, l := |a|, |a| + |b|, |a| + |b| + |c|, |a| + |b| + |c| + |d|;
      && |n| == l + |e|
      && n[..i] == a && n[i..j] == b && n[j..k] == c && n[k..l] == d && n[l..] == e
  {
  }

  /** Everything after the `R` of a receipt number is a digit. */
  lemma NumeroDigits(today: CivilDate, ventaId: nat)
    requires FitsYmd(today)
    ensures AllDigits(Numero(today, ventaId)[1..])
  {
    NumeroLayout(today, ventaId);
    var n := Numero(today, ventaId);
    forall i | 1 <= i < |n|
      ensures IsDigit(n[i])
    {
      if i < 5 {
        assert n[i] == n[1..5][i - 1];
      } else if i < 7 {
        assert n[i] == n[5..7][i - 5];
      } else if i < 9 {
        assert n[i] == n[7..9][i - 7];
      } else {
        assert n[i] == n[9..][i - 9];
      }
    }
  }

  /** A receipt number reads back as its date and its sale id: the date occupies
      positions 1 to 8 and everything after it is the sale id, padded with zeros;
      for ids below 10^6 the number has exactly 15 characters. */
  lemma NumeroReadsBack(today: CivilDate, ventaId: nat)
    requires FitsYmd(today)
    ensures var n := Numero(today, ventaId);
      && |n| >= 15 && n[0] == 'R' && AllDigits(n[1..])
      && AllDigits(n[1..5]) && Value(n[1..5]) == today.year
      && AllDigits(n[5..7]) && Value(n[5..7]) == today.month
      && AllDigits(n[7..9]) && Value(n[7..9]) == today.day
      && AllDigits(n[9..]) && Value(n[9..]) == ventaId
      && (ventaId < Pow10(IdWidth) <==> |n| == 15)
  {
    NumeroLayout(today, ventaId);
    NumeroDigits(today, ventaId);
    PadNatValue(today.year, 4);
    PadNatValue(today.month, 2);
    PadNatValue(today.day, 2);
    PadNatValue(ventaId, IdWidth);
    if ventaId < Pow10(IdWidth) {
      PadNatLength(ventaId, IdWidth);
    } else {
      NatAtLeastPowHasMoreDigits(ventaId, IdWidth);
    }
  }

  /** A number of at least `10^k` has more than `k` digits. */
  lemma {:induction false} NatAtLeastPowHasMoreDigits(n: nat, k: nat)
    requires n >= Pow10(k)
    ensures |FromNat(n)| > k
  {
    if k > 0 {
      assert n >= 10;
      assert n / 10 >= Pow10(k - 1);
      NatAtLeastPowHasMoreDigits(n / 10, k - 1);
    }
  }

  /** Two receipts numbered on valid dates share a number only if they share the
      date and the sale. */
  lemma NumeroInjective(d1: CivilDate, id1: nat, d2: CivilDate, id2: nat)
    requires FitsYmd(d1) && FitsYmd(d2) && Numero(d1, id1) == Numero(d2, id2)
    ensures d1 == d2 && id1 == id2
  {
    NumeroReadsBack(d1, id1);
    NumeroReadsBack(d2, id2);
  }

  datatype EstadoSunat = Pendiente | Enviado

  /** A row of `recibo`. */
  datatype Recibo = Recibo(
    id: nat,
    ventaId: nat,
    numero: string,
    subtotal: int,
    igv: int,
    total: int,
    tipo: Tipo,
    estadoSunat: EstadoSunat)

  /** A row of `sunat_log`. */
  datatype SunatLog = SunatLog(id: nat, reciboId: nat, respuesta: string)

  /** The response recorded for a simulated submission. */
  const Respuesta: string := "ENVIADO"

  function ReciboKey(r: Recibo): int { r.id }
  function SunatLogKey(l: SunatLog): int { l.id }

  predicate IsPending(r: Recibo) { r.estadoSunat == Pendiente }

  /** The receipt generated on `today` with id `id` for the sale `ventaId` of amount `total`. */
  function NewRecibo(id: nat, ventaId: nat, total: int, tipo: Tipo, today: CivilDate): (r: Recibo)
    ensures r.id == id && r.ventaId == ventaId && r.total == total && r.tipo == tipo && IsPending(r)
    ensures r.subtotal + r.igv == r.total
    ensures r.subtotal == IgvSplit(total).subtotal
    ensures r.numero == Numero(today, ventaId)
  {
    var split := IgvSplit(total);
    Recibo(id, ventaId, Numero(today, ventaId), split.subtotal, split.igv, total, tipo, Pendiente)
  }

  /** What every stored receipt satisfies: its parts add up to its total, and its
      number starts with `R` and ends with its sale id. */
  ghost predicate WellFormed(r: Recibo)
  {
    && r.subtotal + r.igv == r.total
    && -59 < 118 * r.subtotal - 100 * r.total < 59
    && |r.numero| >= 15 && r.numero[0] == 'R' && AllDigits(r.numero[9..])
    && Value(r.numero[9..]) == r.ventaId
  }

  ghost predicate AllWellFormed(recibos: seq<Recibo>)
  {
    forall i :: 0 <= i < |recibos| ==> WellFormed(recibos[i])
  }

  /** A receipt generated on a valid date is well formed. */
  lemma NewReciboWellFormed(id: nat, ventaId: nat, total: int, tipo: Tipo, today: CivilDate)
    requires FitsYmd(today)
    ensures WellFormed(NewRecibo(id, ventaId, total, tipo, today))
  {
    var r := NewRecibo(id, ventaId, total, tipo, today);
    NumeroLayout(today, ventaId);
    NumeroReadsBack(today, ventaId);
    assert r.numero[9..] == PadNat(ventaId, IdWidth);
  }

  /** The receipt marked as sent. */
  function MarkSent(r: Recibo): (s: Recibo)
    ensures !IsPending(s) && s.(estadoSunat := r.estadoSunat) == r
  {
    r.(estadoSunat := Enviado)
  }

  /** Generating a receipt adds one pending receipt. */
  lemma PendingCountAppend(recibos: seq<Recibo>, r: Recibo)
    ensures PendingCount(recibos + [r]) == PendingCount(recibos) + (if IsPending(r) then 1 else 0)
  {
    assert (recibos + [r])[..|recibos|] == recibos;
  }

  /** Marking a receipt as sent keeps every receipt well formed. */
  lemma MarkSentKeepsWellFormed(recibos: seq<Recibo>, k: nat)
    requires AllWellFormed(recibos) && k < |recibos|
    ensures AllWellFormed(recibos[k := MarkSent(recibos[k])])
  {
  }

  /** The number of receipts still pending. */
  function PendingCount(recibos: seq<Recibo>): nat
  {
    if recibos == [] then 0
    else PendingCount(recibos[..|recibos| - 1]) + (if IsPending(recibos[|recibos| - 1]) then 1 else 0)
  }

  /** Marking one pending receipt as sent lowers the pending count by exactly one. */
  lemma {:induction false} MarkSentCount(recibos: seq<Recibo>, k: nat)
    requires k < |recibos| && IsPending(recibos[k])
    ensures PendingCount(recibos[k := MarkSent(recibos[k])]) == PendingCount(recibos) - 1
  {
    var n := |recibos| - 1;
    var after := recibos[k := MarkSent(recibos[k])];
    if k == n {
      assert after[..n] == recibos[..n];
    } else {
      assert after[..n] == recibos[..n][k := MarkSent(recibos[k])];
      MarkSentCount(recibos[..n], k);
    }
  }
}
