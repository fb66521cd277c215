/** Orders (`pedido`): creation, free-form status overwrite, and newest-first listing. */
module Orders {
  import opened Common
  import opened Tables

  /** The estado every new order starts in. */
  const EstadoInicial: string := "pedido"

  /** A row of `pedido`; `fecha` is the creation instant in seconds. */
  datatype Pedido = Pedido(id: nat, mesa: int, detalle: string, estado: string, fecha: int)

  function PedidoKey(p: Pedido): int { p.id }

  /** Laravel's `mesa => required|integer, detalle => required|string`: `mesa` is None
      when it is missing or not an integer; 0 and negative tables pass. */
  predicate StoreRequestValid(mesa: Option<int>, detalle: Option<string>)
  {
    mesa.Some? && FilledField(detalle)
  }

  /** PHP truthiness of a string: everything except "" and "0". */
  predicate Truthy(s: string)
  {
    s != "" && s != "0"
  }

  /** The raw endpoint's `if (!$mesa || !$detalle)` check, on `(int)$_POST['mesa']`
      (None when the field is not set) and `$_POST['detalle']`. */
  predicate ApiRequestValid(mesa: Option<int>, detalle: Option<string>)
  {
    mesa.Some? && mesa.value != 0 && detalle.Some? && Truthy(detalle.value)
  }

  /** A new order: estado `pedido`, created now. */
  function NewPedido(id: nat, mesa: int, detalle: string, now: int): (p: Pedido)
    ensures p.id == id && p.mesa == mesa && p.detalle == detalle
    ensures p.estado == EstadoInicial && p.fecha == now
  {
    Pedido(id, mesa, detalle, EstadoInicial, now)
  }

  /** Whether some order has the id. */
  predicate HasId(pedidos: seq<Pedido>, id: int)
  {
    exists i :: 0 <= i < |pedidos| && pedidos[i].id == id
  }

  /** `UPDATE pedido SET estado = ? WHERE id = ?`: every order with the id gets the
      new estado, whatever it was before; nothing else changes. */
  function SetEstado(pedidos: seq<Pedido>, id: int, estado: string): (r: seq<Pedido>)
    ensures |r| == |pedidos|
    ensures forall i :: 0 <= i < |r| ==> r[i].(estado := pedidos[i].estado) == pedidos[i]
    ensures forall i :: 0 <= i < |r| && pedidos[i].id == id ==> r[i].estado == estado
    ensures forall i :: 0 <= i < |r| && pedidos[i].id != id ==> r[i] == pedidos[i]
  {
    if pedidos == [] then []
    else
      var p := pedidos[0];
      [if p.id == id then p.(estado := estado) else p] + SetEstado(pedidos[1..], id, estado)
  }

  /** An update on an id no order has changes nothing. */
  lemma SetEstadoUnknownId(pedidos: seq<Pedido>, id: int, estado: string)
    requires !HasId(pedidos, id)
    ensures SetEstado(pedidos, id, estado) == pedidos
  {
  }

  /** Under the auto-increment invariant the update touches exactly one row, the one
      `find` returns, as Eloquent's find-then-save does. */
  lemma SetEstadoAtKey(pedidos: seq<Pedido>, next: int, k: nat, estado: string)
    requires KeysAscending(pedidos, PedidoKey, next) && k < |pedidos|
    ensures SetEstado(pedidos, pedidos[k].id, estado) == pedidos[k := pedidos[k].(estado := estado)]
  {
    var id := pedidos[k].id;
    KeysOrdered(pedidos, PedidoKey, next);
    forall i | 0 <= i < |pedidos| && i != k
      ensures pedidos[i].id != id
    {
      if i < k {
        assert PedidoKey(pedidos[i]) < PedidoKey(pedidos[k]);
      } else {
        assert PedidoKey(pedidos[k]) < PedidoKey(pedidos[i]);
      }
    }
    var r, expected := SetEstado(pedidos, id, estado), pedidos[k := pedidos[k].(estado := estado)];
    assert forall i :: 0 <= i < |r| ==> r[i] == expected[i];
  }

  /** The update keeps every id, so it keeps the auto-increment invariant. */
  lemma SetEstadoKeepsKeys(pedidos: seq<Pedido>, next: int, id: int, estado: string)
    requires KeysAscending(pedidos, PedidoKey, next)
    ensures KeysAscending(SetEstado(pedidos, id, estado), PedidoKey, next)
  {
    SameKeysAscending(pedidos, SetEstado(pedidos, id, estado), PedidoKey, next);
  }

  /** No transition check: the last estado written wins, whatever came before. */
  lemma SetEstadoLastWins(pedidos: seq<Pedido>, id: int, e1: string, e2: string)
    ensures SetEstado(SetEstado(pedidos, id, e1), id, e2) == SetEstado(pedidos, id, e2)
  {
  }

  /** Orders newest first: `ORDER BY fecha DESC`. */
  ghost predicate NewestFirst(ps: seq<Pedido>)
  {
    forall i, j :: 0 <= i < j < |ps| ==> ps[i].fecha >= ps[j].fecha
  }

  /** Inserts `p` into a newest-first list in front of the first older order. */
  function Insert(p: Pedido, ps: seq<Pedido>): seq<Pedido>
  {
    if ps == [] || ps[0].fecha <= p.fecha then [p] + ps
    else [ps[0]] + Insert(p, ps[1..])
  }

  /** The orders sorted newest first (orders with equal `fecha` may come in any order). */
  function SortNewestFirst(ps: seq<Pedido>): seq<Pedido>
  {
    if ps == [] then [] else Insert(ps[0], SortNewestFirst(ps[1..]))
  }

  lemma {:induction false} InsertPermutes(p: Pedido, ps: seq<Pedido>)
    ensures multiset(Insert(p, ps)) == multiset([p] + ps)
  {
    if ps != [] && ps[0].fecha > p.fecha {
      InsertPermutes(p, ps[1..]);
      assert ps == [ps[0]] + ps[1..];
    }
  }

  /** Inserting adds `p` and keeps every other order. */
  lemma {:induction false} InsertMembers(p: Pedido, ps: seq<Pedido>)
    ensures forall x :: x in Insert(p, ps) <==> x == p || x in ps
  {
    if ps != [] && ps[0].fecha > p.fecha {
      InsertMembers(p, ps[1..]);
      assert ps == [ps[0]] + ps[1..];
    }
  }

  lemma {:induction false} InsertSorted(p: Pedido, ps: seq<Pedido>)
    requires NewestFirst(ps)
    ensures NewestFirst(Insert(p, ps))
  {
    if ps != [] && ps[0].fecha > p.fecha {
      var rest := ps[1..];
      InsertSorted(p, rest);
      InsertMembers(p, rest);
      assert forall x :: x in rest ==> x.fecha <= ps[0].fecha;
      var r := Insert(p, rest);
      assert forall k :: 0 <= k < |r| ==> r[k] in r;
    }
  }

  /** The listing holds exactly the stored orders. */
  lemma {:induction false} SortPermutes(ps: seq<Pedido>)
    ensures multiset(SortNewestFirst(ps)) == multiset(ps)
  {
    if ps != [] {
      SortPermutes(ps[1..]);
      InsertPermutes(ps[0], SortNewestFirst(ps[1..]));
      assert ps == [ps[0]] + ps[1..];
    }
  }

  /** The listing is newest first. */
  lemma {:induction false} SortSorted(ps: seq<Pedido>)
    ensures NewestFirst(SortNewestFirst(ps))
  {
    if ps != [] {
      SortSorted(ps[1..]);
      InsertSorted(ps[0], SortNewestFirst(ps[1..]));
    }
  }

  /** The kitchen endpoint's gate: a session user whose raw tipo is exactly `cocina`. */
  predicate KitchenAllowed(usuario: Option<string>, tipo: Option<string>)
  {
    usuario.Some? && tipo == Some("cocina")
  }
}
