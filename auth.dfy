/** Login: a plain-text credential lookup and the mapping of stored user types onto the
    five roles the front end knows. */
module Auth {
  import opened Common

  /** A row of `usuarios`; a NULL `tipo` is modelled as "", which is what `(string)` makes of it. */
  datatype Usuario = Usuario(id: nat, usuario: string, clave: string, tipo: string)

  /** The front end's roles. */
  datatype Role = Admin | Caja | Cocina | Pedido | Menu
  {
    function Name(): string
    {
      match this
      case Admin => "admin"
      case Caja => "caja"
      case Cocina => "cocina"
      case Pedido => "pedido"
      case Menu => "menu"
    }
  }

  function LowerChar(c: char): char
  {
    if 'A' <= c <= 'Z' then (c as int + 32) as char else c
  }

  /** `strtolower`, on ASCII letters only. */
  function Lower(s: string): string
  {
    seq(|s|, i requires 0 <= i < |s| => LowerChar(s[i]))
  }

  /** The if/elseif chain over the lower-cased stored tipo. */
  function MapRole(tipo: string): Role
  {
    var t := Lower(tipo);
    if t == "admin" then Admin
    else if t == "caja" || t == "encargado" || t == "encargado_caja" then Caja
    else if t == "cocina" || t == "kitchen" then Cocina
    else if t == "pedido" || t == "mozo" then Pedido
    else Menu
  }

  /** The mapping as a table from lower-case aliases to roles; everything else is Menu. */
  const RoleTable: map<string, Role> := map[
    "admin" := Admin,
    "caja" := Caja, "encargado" := Caja, "encargado_caja" := Caja,
    "cocina" := Cocina, "kitchen" := Cocina,
    "pedido" := Pedido, "mozo" := Pedido]

  /** The chain agrees with the table: the aliases are distinct, so the order of the
      branches does not matter. */
  lemma MapRoleByTable(tipo: string)
    ensures MapRole(tipo) == if Lower(tipo) in RoleTable then RoleTable[Lower(tipo)] else Menu
  {
  }

  /** Lower-casing is idempotent. */
  lemma LowerIdempotent(s: string)
    ensures Lower(Lower(s)) == Lower(s)
  {
  }

  /** The mapping ignores letter case. */
  lemma MapRoleIgnoresCase(a: string, b: string)
    requires Lower(a) == Lower(b)
    ensures MapRole(a) == MapRole(b)
  {
  }

  /** A string without upper-case letters is its own lower case. */
  lemma LowerOfLower(s: string)
    requires forall i :: 0 <= i < |s| ==> !('A' <= s[i] <= 'Z')
    ensures Lower(s) == s
  {
  }

  /** Every role's own name maps back to that role, so mapping a mapped role
      again changes nothing. */
  lemma MapRoleOfName(r: Role, tipo: string)
    ensures MapRole(r.Name()) == r
    ensures MapRole(MapRole(tipo).Name()) == MapRole(tipo)
  {
    forall q: Role
      ensures MapRole(q.Name()) == q
    {
      LowerOfLower(q.Name());
    }
  }

  /** The first user, in table order, with exactly this usuario and clave. */
  function FirstMatch(users: seq<Usuario>, usuario: string, clave: string): (r: Option<nat>)
    ensures r.None? <==> forall i :: 0 <= i < |users| ==> !(users[i].usuario == usuario && users[i].clave == clave)
    ensures r.Some? ==> r.value < |users| && users[r.value].usuario == usuario && users[r.value].clave == clave
    ensures r.Some? ==> forall i :: 0 <= i < r.value ==> !(users[i].usuario == usuario && users[i].clave == clave)
  {
    if users == [] then None
    else if users[0].usuario == usuario && users[0].clave == clave then Some(0)
    else
      var rest := FirstMatch(users[1..], usuario, clave);
      if rest.Some? then Some(rest.value + 1) else None
  }

  datatype LoginResult =
    | Invalid                                        // validation failed (HTTP 422)
    | Denied                                         // `success = false`
    | Granted(tipo: Role, id: nat, usuario: string)  // `success = true`

  /** `AuthController::login`. */
  function Login(users: seq<Usuario>, usuario: Option<string>, clave: Option<string>): (r: LoginResult)
    ensures r.Invalid? <==> !(FilledField(usuario) && FilledField(clave))
    ensures r.Denied? <==>
      (&& FilledField(usuario) && FilledField(clave)
       && forall i :: 0 <= i < |users| ==> !(users[i].usuario == usuario.value && users[i].clave == clave.value))
    ensures r.Granted? ==>
      exists i ::
        && 0 <= i < |users|
        && users[i].usuario == usuario.value && users[i].clave == clave.value
        && (forall j :: 0 <= j < i ==> !(users[j].usuario == usuario.value && users[j].clave == clave.value))
        && r == Granted(MapRole(users[i].tipo), users[i].id, users[i].usuario)
  {
    if !(FilledField(usuario) && FilledField(clave)) then Invalid
    else
      match FirstMatch(users, usuario.value, clave.value)
      case None => Denied
      case Some(k) => Granted(MapRole(users[k].tipo), users[k].id, users[k].usuario)
  }
}
