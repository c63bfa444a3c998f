/**
 * The generic CRUD dispatcher of controllers/crudController.js: a registry of
 * three tables, the projection of a request body onto a table's columns, the
 * SQL text built from registry identifiers only, and five handlers that try a
 * stored procedure first and fall back to plain SQL when it fails.
 *
 * A handler returns the queries it sent to the engine. A query is a statement,
 * which has slots for identifiers and placeholders but none for values, plus
 * the named parameters that carry the request's values.
 */
module Crud {
  import opened Js
  import opened TriggerRules
  import opened Store

  datatype TableConfig = TableConfig(pk: string, campos: seq<string>)

  /** `TABLAS_CONFIG[tabla]` for the table's own keys. */
  function Config(tabla: string): (c: Option<TableConfig>)
    ensures c.Some? <==> tabla == "Pacientes" || tabla == "Doctores" || tabla == "Citas"
    ensures c.Some? ==> c.value.pk == "ID" && "ID" !in c.value.campos && "Estado" !in c.value.campos
  {
    if tabla == "Pacientes" then Some(TableConfig("ID", ["nombre", "edad", "direccion", "telefono"]))
    else if tabla == "Doctores" then Some(TableConfig("ID", ["nombre", "especialidad", "telefono"]))
    else if tabla == "Citas" then Some(TableConfig("ID", ["paciente_id", "doctor_id", "fecha"]))
    else None
  }

  /** `Object.keys(TABLAS_CONFIG)`: the registered names in declaration order. */
  const TableNames: seq<string> := ["Pacientes", "Doctores", "Citas"]

  /** The key list and the lookup agree: each name is registered, and only these are. */
  lemma TableNamesAreTheKeys(tabla: string)
    ensures Config(tabla).Some? <==> tabla in TableNames
  {
  }

  datatype Check = Pass | Fail(message: string)

  /**
   * Names every plain JavaScript object inherits from `Object.prototype`:
   * `TABLAS_CONFIG[name]` is truthy for each of them.
   */
  const PrototypeNames: set<string> := {
    "constructor", "toString", "toLocaleString", "valueOf", "hasOwnProperty",
    "isPrototypeOf", "propertyIsEnumerable", "__proto__", "__defineGetter__",
    "__defineSetter__", "__lookupGetter__", "__lookupSetter__"
  }

  function RejectMessage(): string {
    "Tabla no permitida. Usa: " + Join(TableNames, ", ")
  }

  /** `validarTabla` as written: `!TABLAS_CONFIG[tabla]` also finds inherited names. */
  function ValidarTablaAsWritten(tabla: string): (r: Check)
    ensures r.Pass? <==> Config(tabla).Some? || tabla in PrototypeNames
  {
    if Config(tabla).Some? || tabla in PrototypeNames then Pass else Fail(RejectMessage())
  }

  /** The rejection lists the registered names, comma-separated. */
  lemma RejectMessageText()
    ensures RejectMessage() == "Tabla no permitida. Usa: Pacientes, Doctores, Citas"
  {
    assert Join(TableNames, ", ") == "Pacientes, Doctores, Citas" by {
      assert TableNames == ["Pacientes", "Doctores"] + ["Citas"];
      JoinAppend(["Pacientes", "Doctores"], ", ", "Citas");
      assert ["Pacientes", "Doctores"] == ["Pacientes"] + ["Doctores"];
      JoinAppend(["Pacientes"], ", ", "Doctores");
      assert "Pacientes" + ", " == "Pacientes, ";
      assert "Pacientes, " + "Doctores" == "Pacientes, Doctores";
      assert "Pacientes, Doctores" + ", " == "Pacientes, Doctores, ";
      assert "Pacientes, Doctores, " + "Citas" == "Pacientes, Doctores, Citas";
    }
    RejectMessageTail();
  }

  lemma RejectMessageTail()
    ensures "Tabla no permitida. Usa: " + "Pacientes, Doctores, Citas" == "Tabla no permitida. Usa: Pacientes, Doctores, Citas"
  {
  }

  /** `validarTabla`, accepting only the registry's own keys; the model's handlers use this one. */
  function ValidarTabla(tabla: string): (r: Check)
    ensures r.Pass? <==> tabla == "Pacientes" || tabla == "Doctores" || tabla == "Citas"
    ensures r.Fail? ==> r.message == "Tabla no permitida. Usa: Pacientes, Doctores, Citas"
  {
    RejectMessageText();
    if Config(tabla).Some? then Pass else Fail(RejectMessage())
  }

  /**
   * As written, `validarTabla` lets "constructor" through although it is no
   * registry key, and `readAll` then sends `EXEC sp_constructor_ReadAll`:
   * an identifier taken from the request reaches the SQL text.
   */
  lemma InheritedNamePassesAsWritten()
    ensures ValidarTablaAsWritten("constructor").Pass?
    ensures ValidarTabla("constructor").Fail?
    ensures Sql(Exec("constructor", ReadAll, [])) == "EXEC sp_constructor_ReadAll"
  {
  }

  // ---------------------------------------------------------------------------
  // buildParams

  /** The entries `buildParams` keeps: each column of `campos` whose body value is not `undefined`. */
  function Projection(campos: seq<string>, body: Object): (p: Object)
    ensures |p| <= |campos|
    ensures forall i :: 0 <= i < |p| ==> p[i].0 in campos && Get(body, p[i].0) == Some(p[i].1)
  {
    if campos == [] then []
    else
      var last := campos[|campos| - 1];
      var front := Projection(campos[..|campos| - 1], body);
      assert forall c :: c in campos ==> c in campos[..|campos| - 1] || c == last;
      match Get(body, last)
      case Some(v) =>
        assert last in campos && Get(body, last).Some?;
        front + [(last, v)]
      case None => front
  }

  /** `b` comes after `a` in `xs`. */
  ghost predicate Before(xs: seq<string>, a: string, b: string) {
    exists k, l :: 0 <= k < l < |xs| && xs[k] == a && xs[l] == b
  }

  /** Projecting onto one more column appends that column's entry, if the body has one. */
  lemma ProjectionSnoc(campos: seq<string>, body: Object)
    requires campos != []
    ensures Get(body, campos[|campos| - 1]).None? ==>
      Projection(campos, body) == Projection(campos[..|campos| - 1], body)
    ensures Get(body, campos[|campos| - 1]).Some? ==>
      Projection(campos, body) == Projection(campos[..|campos| - 1], body) + [(campos[|campos| - 1], Get(body, campos[|campos| - 1]).value)]
  {
  }

  /** Every registered column the body defines is kept, with the body's value. */
  lemma {:induction false} ProjectionComplete(campos: seq<string>, body: Object)
    ensures forall c :: c in campos && Get(body, c).Some? ==> (c, Get(body, c).value) in Projection(campos, body)
  {
    if campos != [] {
      var n := |campos|;
      var front := campos[..n - 1];
      var f := Projection(front, body);
      assert forall c :: c in front && Get(body, c).Some? ==> (c, Get(body, c).value) in f by {
        ProjectionComplete(front, body);
      }
      ProjectionSnoc(campos, body);
      assert forall c :: c in campos ==> c in front || c == campos[n - 1];
    }
  }

  /** The projection is empty exactly when the body defines none of the columns. */
  lemma ProjectionEmpty(campos: seq<string>, body: Object)
    ensures Projection(campos, body) == [] <==> forall c :: c in campos ==> Get(body, c).None?
  {
    var p := Projection(campos, body);
    ProjectionComplete(campos, body);
    if p != [] {
      assert p[0].0 in campos && Get(body, p[0].0).Some?;
    }
  }

  /** The positions of the columns of `campos` that the body carries, in increasing order. */
  function Origins(campos: seq<string>, body: Object): (o: seq<nat>)
    ensures forall i :: 0 <= i < |o| ==> o[i] < |campos|
    ensures forall i, j :: 0 <= i < j < |o| ==> o[i] < o[j]
  {
    if campos == [] then []
    else
      var n := |campos|;
      var front := Origins(campos[..n - 1], body);
      if Get(body, campos[n - 1]).Some? then front + [n - 1] else front
  }

  /** Entry i of `p` names the column at position `o[i]` of `xs`. */
  ghost predicate NamesAt(xs: seq<string>, o: seq<nat>, p: Object) {
    |o| == |p| && forall i :: 0 <= i < |o| ==> o[i] < |xs| && xs[o[i]] == p[i].0
  }

  lemma NamesAtExtend(xs: seq<string>, o: seq<nat>, p: Object, x: string)
    requires NamesAt(xs, o, p)
    ensures NamesAt(xs + [x], o, p)
  {
    forall i | 0 <= i < |o|
      ensures (xs + [x])[o[i]] == p[i].0
    {
      assert (xs + [x])[o[i]] == xs[o[i]];
    }
  }

  lemma NamesAtSnoc(xs: seq<string>, o: seq<nat>, p: Object, k: nat, e: (string, Value))
    requires NamesAt(xs, o, p) && k < |xs| && xs[k] == e.0
    ensures NamesAt(xs, o + [k], p + [e])
  {
    forall i | 0 <= i < |o| + 1
      ensures (o + [k])[i] < |xs| && xs[(o + [k])[i]] == (p + [e])[i].0
    {
      if i < |o| {
        assert (o + [k])[i] == o[i] && (p + [e])[i] == p[i];
      }
    }
  }

  /** Entry i of the projection is the column at position `Origins(campos, body)[i]`. */
  lemma {:induction false} OriginsMatch(campos: seq<string>, body: Object)
    ensures |Origins(campos, body)| == |Projection(campos, body)|
    ensures forall i :: 0 <= i < |Origins(campos, body)| ==>
      campos[Origins(campos, body)[i]] == Projection(campos, body)[i].0
  {
    assert NamesAt(campos, Origins(campos, body), Projection(campos, body)) by {
      OriginsNames(campos, body);
    }
  }

  lemma {:induction false} OriginsNames(campos: seq<string>, body: Object)
    ensures NamesAt(campos, Origins(campos, body), Projection(campos, body))
  {
    if campos != [] {
      var n := |campos|;
      var front := campos[..n - 1];
      var o, f := Origins(front, body), Projection(front, body);
      OriginsNames(front, body);
      assert campos == front + [campos[n - 1]];
      NamesAtExtend(front, o, f, campos[n - 1]);
      ProjectionSnoc(campos, body);
      if Get(body, campos[n - 1]).Some? {
        NamesAtSnoc(campos, o, f, n - 1, (campos[n - 1], Get(body, campos[n - 1]).value));
      }
    }
  }

  /** The kept entries follow the order of `campos`. */
  lemma ProjectionInCamposOrder(campos: seq<string>, body: Object, i: nat, j: nat)
    requires i < j < |Projection(campos, body)|
    ensures Before(campos, Projection(campos, body)[i].0, Projection(campos, body)[j].0)
  {
    OriginsMatch(campos, body);
    var o := Origins(campos, body);
    assert o[i] < o[j] < |campos|;
  }

  lemma DistinctSnoc(o: Object, k: string, v: Value)
    requires DistinctKeys(o)
    requires forall i :: 0 <= i < |o| ==> o[i].0 != k
    ensures DistinctKeys(o + [(k, v)])
  {
    var p := o + [(k, v)];
    forall i, j | 0 <= i < j < |p|
      ensures p[i].0 != p[j].0
    {
      assert p[i] == o[i];
    }
  }

  /** Distinct columns give an object with distinct keys. */
  lemma {:induction false} ProjectionDistinct(campos: seq<string>, body: Object)
    requires forall i, j :: 0 <= i < j < |campos| ==> campos[i] != campos[j]
    ensures DistinctKeys(Projection(campos, body))
  {
    if campos != [] {
      var n := |campos|;
      var front := campos[..n - 1];
      var last := campos[n - 1];
      var f := Projection(front, body);
      assert DistinctKeys(f) by {
        ProjectionDistinct(front, body);
      }
      ProjectionSnoc(campos, body);
      if Get(body, last).Some? {
        assert forall i :: 0 <= i < |f| ==> f[i].0 != last by {
          assert forall i :: 0 <= i < |f| ==> f[i].0 in front;
        }
        DistinctSnoc(f, last, Get(body, last).value);
      }
    }
  }

  /** `buildParams(tabla, body)`, filled column by column as the source's `forEach` does. */
  method BuildParams(tabla: string, body: Object) returns (params: Object)
    requires Config(tabla).Some?
    ensures params == Projection(Config(tabla).value.campos, body)
  {
    var campos := Config(tabla).value.campos;
    params := [];
    for i := 0 to |campos|
      invariant params == Projection(campos[..i], body)
    {
      assert campos[..i + 1][..i] == campos[..i];
      var v := Get(body, campos[i]);
      if v.Some? {
        params := params + [(campos[i], v.value)];
      }
    }
    assert campos[..|campos|] == campos;
  }

  /** The columns a row written from `params` receives. */
  function ToRecord(params: Object): (r: Record)
    ensures r.Keys == set i | 0 <= i < |params| :: params[i].0
    ensures DistinctKeys(params) ==> forall i :: 0 <= i < |params| ==> r[params[i].0] == params[i].1
  {
    if params == [] then map[]
    else
      var n := |params|;
      var front := ToRecord(params[..n - 1]);
      assert forall i :: 0 <= i < n - 1 ==> params[..n - 1][i] == params[i];
      front[params[n - 1].0 := params[n - 1].1]
  }

  // ---------------------------------------------------------------------------
  // SQL text

  /** `p${i}` */
  function ParamName(i: nat): string {
    "p" + NatToString(i)
  }

  lemma ParamNamesDistinct(i: nat, j: nat)
    requires i != j
    ensures ParamName(i) != ParamName(j)
  {
    if ParamName(i) == ParamName(j) {
      assert ParamName(i)[1..] == NatToString(i);
      assert ParamName(j)[1..] == NatToString(j);
      NatToStringInjective(i, j);
    }
  }

  /** `keys.map((k, i) => `@p${i}`)` */
  function Holders(n: nat): (hs: seq<string>)
    ensures |hs| == n
    ensures forall i :: 0 <= i < n ==> hs[i] == "@" + ParamName(i)
  {
    seq(n, i requires 0 <= i < n => "@" + ParamName(i))
  }

  /** `keys.map((k, i) => `${k}=@p${i}`)` */
  function SetItems(keys: seq<string>): (items: seq<string>)
    ensures |items| == |keys|
    ensures forall i :: 0 <= i < |keys| ==> items[i] == keys[i] + "=@" + ParamName(i)
  {
    seq(|keys|, i requires 0 <= i < |keys| => keys[i] + "=@" + ParamName(i))
  }

  /** `keys.map(k => `@${k}=@${k}`)` */
  function SpArgs(names: seq<string>): (items: seq<string>)
    ensures |items| == |names|
    ensures forall i :: 0 <= i < |names| ==> items[i] == "@" + names[i] + "=@" + names[i]
  {
    seq(|names|, i requires 0 <= i < |names| => "@" + names[i] + "=@" + names[i])
  }

  /** `named`: the value of the i-th key under the name `p${i}`. */
  function Named(keys: seq<string>, params: Object): Object
    requires forall i :: 0 <= i < |keys| ==> keys[i] in Keys(params)
  {
    seq(|keys|, i requires 0 <= i < |keys| => (ParamName(i), Get(params, keys[i]).value))
  }

  /**
   * The parameter names are distinct, and placeholder i of the INSERT and
   * assignment i of the UPDATE name exactly the parameter that carries key i's value.
   */
  lemma NamedAlignsWithPlaceholders(keys: seq<string>, params: Object)
    requires forall i :: 0 <= i < |keys| ==> keys[i] in Keys(params)
    ensures |Named(keys, params)| == |keys| && DistinctKeys(Named(keys, params))
    ensures forall i :: 0 <= i < |keys| ==>
      var n := Named(keys, params)[i];
      && Get(params, keys[i]) == Some(n.1)
      && Holders(|keys|)[i] == "@" + n.0 && SetItems(keys)[i] == keys[i] + "=" + "@" + n.0
  {
    var named := Named(keys, params);
    forall i, j | 0 <= i < j < |named|
      ensures named[i].0 != named[j].0
    {
      ParamNamesDistinct(i, j);
    }
  }

  /** Fills `named` key by key, as the source's `forEach` does. */
  method NamedParams(keys: seq<string>, params: Object) returns (named: Object)
    requires forall i :: 0 <= i < |keys| ==> keys[i] in Keys(params)
    ensures named == Named(keys, params)
  {
    named := [];
    for i := 0 to |keys|
      invariant |named| == i
      invariant forall j :: 0 <= j < i ==> named[j] == (ParamName(j), Get(params, keys[j]).value)
    {
      named := named + [(ParamName(i), Get(params, keys[i]).value)];
    }
  }

  datatype ProcOp = ReadAll | ReadById | Create | Update | Delete

  function OpName(op: ProcOp): string {
    match op
    case ReadAll => "ReadAll"
    case ReadById => "ReadById"
    case Create => "Create"
    case Update => "Update"
    case Delete => "Delete"
  }

  /** A statement the dispatcher sends: identifiers and placeholders only, no values. */
  datatype Statement =
    | Exec(table: string, op: ProcOp, args: seq<string>)     // EXEC sp_<table>_<op> ...
    | SelectCols(table: string, cols: seq<string>, byId: bool)
    | InsertInto(table: string, cols: seq<string>)
    | SelectLatest(table: string)
    | UpdateSet(table: string, cols: seq<string>)
    | SelectStarById(table: string)
    | DeleteById(table: string)

  /** A statement and the named parameters sent with it. */
  datatype Query = Query(stmt: Statement, params: Object)

  /** The SQL text of a statement. */
  function Sql(s: Statement): string {
    match s
    case Exec(t, op, args) =>
      "EXEC sp_" + t + "_" + OpName(op) +
      (if op == ReadById || op == Delete then " @id"
       else if args == [] then ""
       else " " + Join(SpArgs(args), ", "))
    case SelectCols(t, cols, byId) =>
      "SELECT " + Join(cols, ", ") + " FROM " + t + (if byId then " WHERE ID = @id" else "")
    case InsertInto(t, cols) =>
      "INSERT INTO " + t + " (" + Join(cols, ", ") + ") VALUES (" + Join(Holders(|cols|), ", ") + ");"
    case SelectLatest(t) => "SELECT TOP 1 * FROM " + t + " ORDER BY ID DESC"
    case UpdateSet(t, cols) => "UPDATE " + t + " SET " + Join(SetItems(cols), ", ") + " WHERE ID=@id"
    case SelectStarById(t) => "SELECT * FROM " + t + " WHERE ID=@id"
    case DeleteById(t) => "DELETE FROM " + t + " WHERE ID=@id"
  }

  /** Every identifier of `s` is a registry key, its primary key or one of its columns (or the parameter `id`). */
  predicate FromRegistry(s: Statement) {
    Config(s.table).Some? &&
    var cfg := Config(s.table).value;
    match s
    case Exec(_, _, args) => forall a :: a in args ==> a == "id" || a in cfg.campos
    case SelectCols(_, cols, _) => forall c :: c in cols ==> c == cfg.pk || c in cfg.campos
    case InsertInto(_, cols) => forall c :: c in cols ==> c in cfg.campos
    case UpdateSet(_, cols) => forall c :: c in cols ==> c in cfg.campos
    case _ => true
  }

  lemma InsertTextPieces()
    ensures "INSERT INTO " + "Citas" + " (" + "fecha" + ") VALUES (" + "@p0" + ");" == "INSERT INTO Citas (fecha) VALUES (@p0);"
  {
    assert "INSERT INTO " + "Citas" == "INSERT INTO Citas";
    assert "INSERT INTO Citas" + " (" == "INSERT INTO Citas (";
    assert "INSERT INTO Citas (" + "fecha" == "INSERT INTO Citas (fecha";
    assert "INSERT INTO Citas (fecha" + ") VALUES (" == "INSERT INTO Citas (fecha) VALUES (";
    assert "INSERT INTO Citas (fecha) VALUES (" + "@p0" == "INSERT INTO Citas (fecha) VALUES (@p0";
  }

  /** The fallback INSERT of an appointment that carries only its date. */
  lemma InsertTextExample()
    ensures Sql(InsertInto("Citas", ["fecha"])) == "INSERT INTO Citas (fecha) VALUES (@p0);"
  {
    assert Join(Holders(1), ", ") == "@p0" by {
      assert ParamName(0) == "p0";
      assert Holders(1)[0] == "@" + "p0" == "@p0";
    }
    InsertTextPieces();
  }

  lemma UpdateTextTail()
    ensures "UPDATE Citas SET fecha=@p0" + " WHERE ID=@id" == "UPDATE Citas SET fecha=@p0 WHERE ID=@id"
  {
  }

  lemma UpdateTextPieces()
    ensures "UPDATE " + "Citas" + " SET " + "fecha=@p0" + " WHERE ID=@id" == "UPDATE Citas SET fecha=@p0 WHERE ID=@id"
  {
    assert "UPDATE " + "Citas" == "UPDATE Citas";
    assert "UPDATE Citas" + " SET " == "UPDATE Citas SET ";
    assert "UPDATE Citas SET " + "fecha=@p0" == "UPDATE Citas SET fecha=@p0";
    UpdateTextTail();
  }

  /** The fallback UPDATE of an appointment's date: placeholders count from `@p0`, the row is `@id`. */
  lemma UpdateTextExample()
    ensures Sql(UpdateSet("Citas", ["fecha"])) == "UPDATE Citas SET fecha=@p0 WHERE ID=@id"
  {
    assert Join(SetItems(["fecha"]), ", ") == "fecha=@p0" by {
      assert ParamName(0) == "p0";
      assert SetItems(["fecha"])[0] == "fecha" + "=@" + "p0" == "fecha=@p0";
    }
    UpdateTextPieces();
  }

  /** The argument list of that procedure call. */
  lemma SpArgsExample()
    ensures Join(SpArgs(["id", "fecha"]), ", ") == "@id=@id, @fecha=@fecha"
  {
    var args := SpArgs(["id", "fecha"]);
    assert args[0] == "@" + "id" + "=@" + "id" == "@id=@id";
    assert args[1] == "@" + "fecha" + "=@" + "fecha" == "@fecha=@fecha";
    assert args == ["@id=@id"] + ["@fecha=@fecha"];
    JoinAppend(["@id=@id"], ", ", "@fecha=@fecha");
    assert "@id=@id" + ", " == "@id=@id, ";
  }

  lemma ExecArgsText()
    ensures " " + "@id=@id, @fecha=@fecha" == " @id=@id, @fecha=@fecha"
  {
  }

  lemma ExecTextTail()
    ensures "EXEC sp_Citas_Update" + " @id=@id, @fecha=@fecha" == "EXEC sp_Citas_Update @id=@id, @fecha=@fecha"
  {
  }

  lemma ExecTextPieces()
    ensures "EXEC sp_" + "Citas" + "_" + "Update" + (" " + "@id=@id, @fecha=@fecha") == "EXEC sp_Citas_Update @id=@id, @fecha=@fecha"
  {
    assert "EXEC sp_" + "Citas" == "EXEC sp_Citas";
    assert "EXEC sp_Citas" + "_" == "EXEC sp_Citas_";
    assert "EXEC sp_Citas_" + "Update" == "EXEC sp_Citas_Update";
    ExecArgsText();
    ExecTextTail();
  }

  /** The procedure call for the same update: `@id` first, then `@col=@col`. */
  lemma ExecTextExample()
    ensures Sql(Exec("Citas", Update, ["id", "fecha"])) == "EXEC sp_Citas_Update @id=@id, @fecha=@fecha"
  {
    SpArgsExample();
    ExecTextPieces();
  }

  // ---------------------------------------------------------------------------
  // Handlers

  /** The stored procedure answered: procedures are installed and this call did not raise. */
  predicate ProcAnswers(db: Database, proc: Option<seq<Object>>)
    reads db
  {
    db.proceduresExist && proc.Some?
  }

  /** `data[0]`, which is `undefined` (no `data` field) for an empty result. */
  function First(rows: seq<Object>): Option<Payload> {
    if rows == [] then None else Some(Row(rows[0]))
  }

  /** The fallback's column list for reads: the primary key, then the registry's columns. */
  function ReadCols(tabla: string): (cols: seq<string>)
    requires Config(tabla).Some?
    ensures |cols| == 1 + |Config(tabla).value.campos|
    ensures cols[0] == "ID" && cols[1..] == Config(tabla).value.campos
  {
    [Config(tabla).value.pk] + Config(tabla).value.campos
  }

  /** `GET /api/crud/:tabla`; `proc` is what `sp_<tabla>_ReadAll` returns, `None` when it raises. */
  method ReadAllHandler(db: Database, tabla: string, proc: Option<seq<Object>>)
    returns (resp: Response, issued: seq<Query>)
    requires db.Valid()
    ensures forall q :: q in issued ==> FromRegistry(q.stmt)
    ensures ValidarTabla(tabla).Fail? ==> resp == ErrorReply(400, ValidarTabla(tabla).message) && issued == []
    ensures ValidarTabla(tabla).Pass? && ProcAnswers(db, proc) ==>
      issued == [Query(Exec(tabla, ReadAll, []), [])] && resp == Success(200, Some(Rows(proc.value)))
    ensures ValidarTabla(tabla).Pass? && !ProcAnswers(db, proc) ==>
      && issued == [Query(Exec(tabla, ReadAll, []), []), Query(SelectCols(tabla, ReadCols(tabla), false), [])]
      && (tabla !in db.tables ==> resp == ErrorReply(400, "no such table: " + tabla))
      && (tabla in db.tables ==> resp == Success(200, Some(Rows(db.SelectAll(tabla, ReadCols(tabla))))))
  {
    var v := ValidarTabla(tabla);
    if v.Fail? {
      return ErrorReply(400, v.message), [];
    }
    issued := [Query(Exec(tabla, ReadAll, []), [])];
    if ProcAnswers(db, proc) {
      return Success(200, Some(Rows(proc.value))), issued;
    }
    var cols := ReadCols(tabla);
    issued := issued + [Query(SelectCols(tabla, cols, false), [])];
    if tabla !in db.tables {
      return ErrorReply(400, ErrorMessage(NoSuchTable(tabla))), issued;
    }
    resp := Success(200, Some(Rows(db.SelectAll(tabla, cols))));
  }

  /** `GET /api/crud/:tabla/:id` */
  method ReadByIdHandler(db: Database, tabla: string, id: int, proc: Option<seq<Object>>)
    returns (resp: Response, issued: seq<Query>)
    requires db.Valid()
    ensures forall q :: q in issued ==> FromRegistry(q.stmt)
    ensures ValidarTabla(tabla).Fail? ==> resp == ErrorReply(400, ValidarTabla(tabla).message) && issued == []
    ensures ValidarTabla(tabla).Pass? ==> |issued| >= 1 && issued[0] == Query(Exec(tabla, ReadById, ["id"]), [("id", Num(id))])
    ensures ValidarTabla(tabla).Pass? && ProcAnswers(db, proc) ==>
      |issued| == 1 &&
      resp == (if proc.value == [] then MessageReply(404, "No encontrado") else Success(200, Some(Row(proc.value[0]))))
    ensures ValidarTabla(tabla).Pass? && !ProcAnswers(db, proc) ==>
      && issued == [issued[0], Query(SelectCols(tabla, ReadCols(tabla), true), [("id", Num(id))])]
      && (tabla !in db.tables ==> resp == ErrorReply(400, "no such table: " + tabla))
      && (tabla in db.tables && id !in db.tables[tabla] ==> resp == MessageReply(404, "No encontrado"))
      && (tabla in db.tables && id in db.tables[tabla] ==>
            resp == Success(200, Some(Row(Project(tabla, id, db.tables[tabla][id], ReadCols(tabla))))))
  {
    var v := ValidarTabla(tabla);
    if v.Fail? {
      return ErrorReply(400, v.message), [];
    }
    var byId := [("id", Num(id))];
    issued := [Query(Exec(tabla, ReadById, ["id"]), byId)];
    var data: seq<Object>;
    if ProcAnswers(db, proc) {
      data := proc.value;
    } else {
      var cols := ReadCols(tabla);
      issued := issued + [Query(SelectCols(tabla, cols, true), byId)];
      if tabla !in db.tables {
        return ErrorReply(400, ErrorMessage(NoSuchTable(tabla))), issued;
      }
      data := db.SelectById(tabla, id, cols);
    }
    if data == [] {
      return MessageReply(404, "No encontrado"), issued;
    }
    resp := Success(200, Some(Row(data[0])));
  }

  /** The statements `create` and `update` send name only registry columns. */
  lemma ProjectionFromRegistry(tabla: string, body: Object)
    requires Config(tabla).Some?
    ensures "Estado" !in Keys(Projection(Config(tabla).value.campos, body))
    ensures var keys := Keys(Projection(Config(tabla).value.campos, body));
      && FromRegistry(Exec(tabla, Create, keys)) && FromRegistry(InsertInto(tabla, keys))
      && FromRegistry(Exec(tabla, Update, ["id"] + keys)) && FromRegistry(UpdateSet(tabla, keys))
      && FromRegistry(SelectLatest(tabla)) && FromRegistry(SelectStarById(tabla))
  {
    var p := Projection(Config(tabla).value.campos, body);
    forall c | c in Keys(p) ensures c in Config(tabla).value.campos {
      var i :| 0 <= i < |p| && Keys(p)[i] == c;
    }
  }

  /** A fallback's one or two statements, each from the registry. */
  lemma FollowUpsFromRegistry(qs: seq<Query>, first: Statement, second: Statement)
    requires FromRegistry(first) && FromRegistry(second)
    requires 1 <= |qs| <= 2 && qs[0].stmt == first && (|qs| == 2 ==> qs[1].stmt == second)
    ensures forall q :: q in qs ==> FromRegistry(q.stmt)
  {
    forall q | q in qs
      ensures FromRegistry(q.stmt)
    {
      var k :| 0 <= k < |qs| && qs[k] == q;
    }
  }

  /** Tables as the store holds them. */
  type Tables = map<string, map<int, Record>>

  /**
   * What the raw-SQL `create` answers and the tables it leaves: the INSERT's
   * outcome, then the newest row read back (which is the inserted one).
   */
  function InsertOutcome(tables: Tables, nextId: map<string, int>, tabla: string, params: Object): (Response, Tables)
    requires tabla in tables ==> tabla in nextId
  {
    if tabla !in tables then (ErrorReply(400, ErrorMessage(NoSuchTable(tabla))), tables)
    else
      var rec := Completed(tabla, ToRecord(params));
      match InsertCheck(tabla, tables[tabla], rec)
      case Some(e) => (ErrorReply(400, ErrorMessage(e)), tables)
      case None =>
        var id := nextId[tabla];
        (Success(201, Some(Row(StarRow(tabla, id, rec)))), tables[tabla := tables[tabla][id := rec]])
  }

  /**
   * What the raw-SQL `update` answers and the tables it leaves: the UPDATE's
   * outcome, then `SELECT * ... WHERE ID=@id`, whose empty result leaves `data` out.
   */
  function UpdateOutcome(tables: Tables, tabla: string, id: int, params: Object): (Response, Tables) {
    if tabla !in tables then (ErrorReply(400, ErrorMessage(NoSuchTable(tabla))), tables)
    else if id !in tables[tabla] then (Success(200, None), tables)
    else
      var after := tables[tabla][id] + ToRecord(params);
      if ViolatesNotNull(tabla, after) then (ErrorReply(400, ErrorMessage(NotNullFailed(tabla, "nombre"))), tables)
      else (Success(200, Some(Row(StarRow(tabla, id, after)))), tables[tabla := tables[tabla][id := after]])
  }

  /** What the raw-SQL `remove` leaves: the row is gone, if it was there. */
  function DeleteOutcome(tables: Tables, tabla: string, id: int): (Response, Tables) {
    if tabla !in tables then (ErrorReply(400, ErrorMessage(NoSuchTable(tabla))), tables)
    else (Deleted(), tables[tabla := tables[tabla] - {id}])
  }

  /**
   * A create either fails and leaves every table as it was, or stores one new
   * row under the next id, holding each sent value, and answers that row as
   * stored; rows that were there stay as they were.
   */
  lemma CreateStoresWhatItAnswers(tables: Tables, nextId: map<string, int>, tabla: string, params: Object)
    requires tabla in tables ==> tabla in nextId
    requires tabla in tables ==> forall id :: id in tables[tabla] ==> id < nextId[tabla]
    requires DistinctKeys(params)
    ensures var (resp, after) := InsertOutcome(tables, nextId, tabla, params);
      && (!resp.success ==> after == tables && resp.status == 400)
      && (resp.success ==>
            var id := nextId[tabla];
            && resp.status == 201 && id in after[tabla] && id !in tables[tabla]
            && (forall i :: 0 <= i < |params| ==> after[tabla][id][params[i].0] == params[i].1)
            && resp.data == Some(Row(StarRow(tabla, id, after[tabla][id])))
            && (forall t :: t in tables ==> t in after && tables[t].Keys <= after[t].Keys)
            && (forall t, k :: t in tables && k in tables[t] ==> after[t][k] == tables[t][k]))
  {
  }

  /** The create succeeds exactly when the table exists and the new row passes NOT NULL and the appointment trigger. */
  lemma CreateSucceedsIffAccepted(tables: Tables, nextId: map<string, int>, tabla: string, params: Object)
    requires tabla in tables ==> tabla in nextId
    ensures InsertOutcome(tables, nextId, tabla, params).0.success <==>
      && tabla in tables
      && !ViolatesNotNull(tabla, Completed(tabla, ToRecord(params)))
      && !(tabla == "Citas" && ValidacionCitasRejects(tables[tabla], Completed(tabla, ToRecord(params))))
  {
  }

  /** An update never answers 404: a missing row is answered 200 without `data`, and a failure changes nothing. */
  lemma UpdateNeverNotFound(tables: Tables, tabla: string, id: int, params: Object)
    ensures var (resp, after) := UpdateOutcome(tables, tabla, id, params);
      && (resp.status == 200 || resp.status == 400)
      && (!resp.success ==> after == tables)
      && (tabla in tables && id !in tables[tabla] ==> resp == Success(200, None) && after == tables)
  {
  }

  /** Laying the sent entries over a row: each sent value wins, every other column is kept. */
  lemma OverlayWrites(before: Record, params: Object)
    requires DistinctKeys(params)
    ensures forall i :: 0 <= i < |params| ==> (before + ToRecord(params))[params[i].0] == params[i].1
    ensures forall c :: c in before && c !in Keys(params) ==> (before + ToRecord(params))[c] == before[c]
  {
  }

  /**
   * A successful update of an existing row writes each sent value into it,
   * keeps its other columns, and answers the row as stored.
   */
  lemma UpdateWritesWhatItAnswers(tables: Tables, tabla: string, id: int, params: Object)
    requires DistinctKeys(params)
    requires tabla in tables && id in tables[tabla] && UpdateOutcome(tables, tabla, id, params).0.success
    ensures var (resp, after) := UpdateOutcome(tables, tabla, id, params);
      && (forall i :: 0 <= i < |params| ==> after[tabla][id][params[i].0] == params[i].1)
      && (forall c :: c in tables[tabla][id] && c !in Keys(params) ==> after[tabla][id][c] == tables[tabla][id][c])
      && resp.data == Some(Row(StarRow(tabla, id, after[tabla][id])))
  {
    var row := tables[tabla][id] + ToRecord(params);
    assert !ViolatesNotNull(tabla, row);
    assert UpdateOutcome(tables, tabla, id, params)
        == (Success(200, Some(Row(StarRow(tabla, id, row)))), tables[tabla := tables[tabla][id := row]]);
    OverlayWrites(tables[tabla][id], params);
  }

  /** An update touches at most its own row: every other row of every table stays as it was. */
  lemma UpdateKeepsOtherRows(tables: Tables, tabla: string, id: int, params: Object)
    ensures var after := UpdateOutcome(tables, tabla, id, params).1;
      && after.Keys == tables.Keys
      && (forall t :: t in tables ==> after[t].Keys == tables[t].Keys)
      && (forall t, k :: t in tables && k in tables[t] && (t, k) != (tabla, id) ==> after[t][k] == tables[t][k])
  {
  }

  /** Sending the same update twice leaves the tables as sending it once. */
  lemma UpdateIdempotent(tables: Tables, tabla: string, id: int, params: Object)
    ensures var after := UpdateOutcome(tables, tabla, id, params).1;
      UpdateOutcome(after, tabla, id, params).1 == after
  {
    if tabla in tables && id in tables[tabla] {
      var once := tables[tabla][id] + ToRecord(params);
      assert once + ToRecord(params) == once;
      var after := UpdateOutcome(tables, tabla, id, params).1;
      if !ViolatesNotNull(tabla, once) {
        assert after[tabla][id := once] == after[tabla];
        assert after[tabla := after[tabla]] == after;
      }
    }
  }

  /** A removed row is gone, the others stay, and removing it again changes nothing. */
  lemma DeleteRemovesOnlyThatRow(tables: Tables, tabla: string, id: int)
    ensures var (resp, after) := DeleteOutcome(tables, tabla, id);
      && (tabla in tables <==> resp == Deleted())
      && (tabla in tables ==> id !in after[tabla])
      && (forall t, k :: t in tables && k in tables[t] && (t, k) != (tabla, id) ==> t in after && k in after[t] && after[t][k] == tables[t][k])
      && DeleteOutcome(after, tabla, id) == (resp, after)
  {
    if tabla in tables {
      var after := DeleteOutcome(tables, tabla, id).1;
      assert after[tabla] - {id} == after[tabla];
      assert after[tabla := after[tabla]] == after;
    }
  }

  /** The raw-SQL path of `create`: the INSERT with one placeholder per column, then the newest row. */
  method CreateFallback(db: Database, tabla: string, params: Object) returns (resp: Response, issued: seq<Query>)
    requires db.Valid()
    modifies db
    ensures db.Valid() && db.proceduresExist == old(db.proceduresExist) && db.clock == old(db.clock)
    ensures (resp, db.tables) == InsertOutcome(old(db.tables), old(db.nextId), tabla, params)
    ensures 1 <= |issued| <= 2 && issued[0] == Query(InsertInto(tabla, Keys(params)), Named(Keys(params), params))
    ensures |issued| == 2 ==> issued[1] == Query(SelectLatest(tabla), [])
    ensures resp.success <==> |issued| == 2
    ensures resp.success ==> tabla in old(db.nextId)
    ensures db.nextId == (if resp.success then Advanced(old(db.nextId), tabla) else old(db.nextId))
  {
    var keys := Keys(params);
    var named := NamedParams(keys, params);
    issued := [Query(InsertInto(tabla, keys), named)];
    var r := db.Insert(tabla, ToRecord(params));
    if r.Err? {
      return ErrorReply(400, ErrorMessage(r.error)), issued;
    }
    ghost var id := old(db.nextId)[tabla];
    assert tabla in db.tables && id in db.tables[tabla];
    issued := issued + [Query(SelectLatest(tabla), [])];
    var latest := db.Latest(tabla);
    if latest.Err? || latest.value == [] {
      assert false;
      return ErrorReply(400, "unreachable"), issued;
    }
    ghost var g :| g in db.tables[tabla] && (forall k :: k in db.tables[tabla] ==> k <= g)
                  && latest == Ok([StarRow(tabla, g, db.tables[tabla][g])]);
    assert g == id;
    resp := Success(201, Some(Row(latest.value[0])));
  }

  /** `POST /api/crud/:tabla` */
  method CreateHandler(db: Database, tabla: string, body: Object, proc: Option<seq<Object>>)
    returns (resp: Response, issued: seq<Query>)
    requires db.Valid()
    modifies db
    ensures db.Valid() && db.proceduresExist == old(db.proceduresExist) && db.clock == old(db.clock)
    ensures forall q :: q in issued ==> FromRegistry(q.stmt)
    ensures ValidarTabla(tabla).Fail? ==>
      resp == ErrorReply(400, ValidarTabla(tabla).message) && issued == [] && unchanged(db)
    ensures ValidarTabla(tabla).Pass? && Projection(Config(tabla).value.campos, body) == [] ==>
      resp == ErrorReply(400, "Sin datos para crear") && issued == [] && unchanged(db)
    ensures ValidarTabla(tabla).Pass? && Projection(Config(tabla).value.campos, body) != [] ==>
      var params := Projection(Config(tabla).value.campos, body);
      && |issued| >= 1 && issued[0] == Query(Exec(tabla, Create, Keys(params)), params)
      && (ProcAnswers(db, proc) ==> |issued| == 1 && resp == Success(201, First(proc.value)) && unchanged(db))
      && (!ProcAnswers(db, proc) ==>
            && 2 <= |issued| <= 3
            && issued[1] == Query(InsertInto(tabla, Keys(params)), Named(Keys(params), params))
            && (resp, db.tables) == InsertOutcome(old(db.tables), old(db.nextId), tabla, params)
            && db.nextId == (if resp.success then Advanced(old(db.nextId), tabla) else old(db.nextId)))
  {
    var v := ValidarTabla(tabla);
    if v.Fail? {
      return ErrorReply(400, v.message), [];
    }
    var params := BuildParams(tabla, body);
    if params == [] {
      return ErrorReply(400, "Sin datos para crear"), [];
    }
    ProjectionFromRegistry(tabla, body);
    issued := [Query(Exec(tabla, Create, Keys(params)), params)];
    if ProcAnswers(db, proc) {
      return Success(201, First(proc.value)), issued;
    }
    var more;
    resp, more := CreateFallback(db, tabla, params);
    FollowUpsFromRegistry(more, InsertInto(tabla, Keys(params)), SelectLatest(tabla));
    issued := issued + more;
  }

  /** The raw-SQL path of `update`: the UPDATE with one placeholder per column, then the row read back. */
  method UpdateFallback(db: Database, tabla: string, id: int, params: Object) returns (resp: Response, issued: seq<Query>)
    requires db.Valid() && "Estado" !in Keys(params)
    modifies db
    ensures db.Valid() && db.proceduresExist == old(db.proceduresExist) && db.clock == old(db.clock) && db.nextId == old(db.nextId)
    ensures (resp, db.tables) == UpdateOutcome(old(db.tables), tabla, id, params)
    ensures 1 <= |issued| <= 2
    ensures issued[0] == Query(UpdateSet(tabla, Keys(params)), Named(Keys(params), params) + [("id", Num(id))])
    ensures |issued| == 2 ==> issued[1] == Query(SelectStarById(tabla), [("id", Num(id))])
    ensures resp.success <==> |issued| == 2
  {
    var keys := Keys(params);
    var named := NamedParams(keys, params);
    issued := [Query(UpdateSet(tabla, keys), named + [("id", Num(id))])];
    var changes := ToRecord(params);
    assert "Estado" !in changes;
    if tabla in db.tables && id in db.tables[tabla] {
      AuditOnlyOnTransition(db.tables[tabla][id], db.tables[tabla][id] + changes);
    }
    var err := db.Update(tabla, id, changes);
    if err.Some? {
      return ErrorReply(400, ErrorMessage(err.value)), issued;
    }
    issued := issued + [Query(SelectStarById(tabla), [("id", Num(id))])];
    var rows := db.SelectById(tabla, id, StarCols(tabla));
    resp := Success(200, First(rows));
  }

  /** `PUT /api/crud/:tabla/:id`: answers 200 even when no row has that id. */
  method UpdateHandler(db: Database, tabla: string, id: int, body: Object, proc: Option<seq<Object>>)
    returns (resp: Response, issued: seq<Query>)
    requires db.Valid()
    modifies db
    ensures db.Valid() && db.proceduresExist == old(db.proceduresExist) && db.clock == old(db.clock) && db.nextId == old(db.nextId)
    ensures forall q :: q in issued ==> FromRegistry(q.stmt)
    ensures ValidarTabla(tabla).Fail? ==>
      resp == ErrorReply(400, ValidarTabla(tabla).message) && issued == [] && unchanged(db)
    ensures ValidarTabla(tabla).Pass? && Projection(Config(tabla).value.campos, body) == [] ==>
      resp == ErrorReply(400, "Sin datos para actualizar") && issued == [] && unchanged(db)
    ensures ValidarTabla(tabla).Pass? && Projection(Config(tabla).value.campos, body) != [] ==>
      var params := Projection(Config(tabla).value.campos, body);
      && |issued| >= 1 && issued[0] == Query(Exec(tabla, Update, ["id"] + Keys(params)), [("id", Num(id))] + params)
      && (ProcAnswers(db, proc) ==> |issued| == 1 && resp == Success(200, First(proc.value)) && unchanged(db))
      && (!ProcAnswers(db, proc) ==>
            && 2 <= |issued| <= 3
            && issued[1] == Query(UpdateSet(tabla, Keys(params)), Named(Keys(params), params) + [("id", Num(id))])
            && (resp, db.tables) == UpdateOutcome(old(db.tables), tabla, id, params))
  {
    var v := ValidarTabla(tabla);
    if v.Fail? {
      return ErrorReply(400, v.message), [];
    }
    var params := BuildParams(tabla, body);
    if params == [] {
      return ErrorReply(400, "Sin datos para actualizar"), [];
    }
    ProjectionFromRegistry(tabla, body);
    issued := [Query(Exec(tabla, Update, ["id"] + Keys(params)), [("id", Num(id))] + params)];
    if ProcAnswers(db, proc) {
      return Success(200, First(proc.value)), issued;
    }
    var more;
    resp, more := UpdateFallback(db, tabla, id, params);
    FollowUpsFromRegistry(more, UpdateSet(tabla, Keys(params)), SelectStarById(tabla));
    issued := issued + more;
  }

  /** `DELETE /api/crud/:tabla/:id`: answers 'Eliminado' whether or not the row existed. */
  method RemoveHandler(db: Database, tabla: string, id: int, proc: Option<seq<Object>>)
    returns (resp: Response, issued: seq<Query>)
    requires db.Valid()
    modifies db
    ensures db.Valid() && db.proceduresExist == old(db.proceduresExist) && db.clock == old(db.clock) && db.nextId == old(db.nextId)
    ensures forall q :: q in issued ==> FromRegistry(q.stmt)
    ensures ValidarTabla(tabla).Fail? ==>
      resp == ErrorReply(400, ValidarTabla(tabla).message) && issued == [] && unchanged(db)
    ensures ValidarTabla(tabla).Pass? ==>
      && |issued| >= 1 && issued[0] == Query(Exec(tabla, Delete, ["id"]), [("id", Num(id))])
      && (ProcAnswers(db, proc) ==> |issued| == 1 && unchanged(db) && resp == Deleted())
      && (!ProcAnswers(db, proc) ==>
            && issued == [issued[0], Query(DeleteById(tabla), [("id", Num(id))])]
            && (resp, db.tables) == DeleteOutcome(old(db.tables), tabla, id))
  {
    var v := ValidarTabla(tabla);
    if v.Fail? {
      return ErrorReply(400, v.message), [];
    }
    issued := [Query(Exec(tabla, Delete, ["id"]), [("id", Num(id))])];
    if ProcAnswers(db, proc) {
      return Deleted(), issued;
    }
    issued := issued + [Query(DeleteById(tabla), [("id", Num(id))])];
    var err := db.Delete(tabla, id);
    if err.Some? {
      return ErrorReply(400, ErrorMessage(err.value)), issued;
    }
    resp := Deleted();
  }

  /** `{ success: true, message: 'Eliminado' }` */
  function Deleted(): Response {
    Response(200, true, None, Some("Eliminado"), None)
  }
}
