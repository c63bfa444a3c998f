/**
 * The browser side of the CRUD page: the HTML table a result set is rendered
 * into, the form's field list per table and the input type of each field, the
 * coercion of form values into a request body, and the empty-id guards of
 * update and delete.
 */
module Frontend {
  import opened Js
  import Crud

  // ---------------------------------------------------------------------------
  // renderTableHtml

  /** A piece of markup: a tag such as `<td>`, or a run of text. */
  datatype Piece = Tag(markup: string) | Text(s: string)

  function PieceText(p: Piece): string {
    match p
    case Tag(markup) => markup
    case Text(s) => s
  }

  /** The markup a sequence of pieces spells, left to right. */
  function Render(ps: seq<Piece>): string {
    if ps == [] then "" else Render(ps[..|ps| - 1]) + PieceText(ps[|ps| - 1])
  }

  lemma {:induction false} RenderAppend(a: seq<Piece>, b: seq<Piece>)
    ensures Render(a + b) == Render(a) + Render(b)
    decreases |b|
  {
    if b == [] {
      assert a + b == a;
    } else {
      var n, front, ab := |b|, b[..|b| - 1], a + b;
      assert ab[..|ab| - 1] == a + front;
      assert ab[|ab| - 1] == b[n - 1];
      RenderAppend(a, front);
      calc {
        Render(ab);
        Render(a + front) + PieceText(b[n - 1]);
        (Render(a) + Render(front)) + PieceText(b[n - 1]);
        Render(a) + (Render(front) + PieceText(b[n - 1]));
        Render(a) + Render(b);
      }
    }
  }

  /** Three pieces spell their texts one after another. */
  lemma RenderThree(x: Piece, y: Piece, z: Piece)
    ensures Render([x, y, z]) == PieceText(x) + PieceText(y) + PieceText(z)
  {
    var a, b, c := PieceText(x), PieceText(y), PieceText(z);
    assert Render([x]) == a by {
      assert [x][..0] == [];
      assert "" + a == a;
    }
    assert Render([x, y]) == a + b by {
      assert [x, y][..1] == [x];
    }
    assert [x, y, z][..2] == [x, y];
  }

  /** `${v ?? ''}`: NULL and a missing key print as nothing. */
  function Cell(r: Object, c: string): string {
    match Get(r, c)
    case None => ""
    case Some(Null) => ""
    case Some(Num(n)) => IntToString(n)
    case Some(Str(s)) => s
  }

  const TableOpen: Piece := Tag("<table class=\"table\">")

  /** `<th>c</th>` for each column. */
  function HeaderCells(cols: seq<string>): seq<Piece> {
    if cols == [] then []
    else HeaderCells(cols[..|cols| - 1]) + [Tag("<th>"), Text(cols[|cols| - 1]), Tag("</th>")]
  }

  /** `<td>v</td>` for each column of row `r`. */
  function DataCells(r: Object, cols: seq<string>): seq<Piece> {
    if cols == [] then []
    else DataCells(r, cols[..|cols| - 1]) + [Tag("<td>"), Text(Cell(r, cols[|cols| - 1])), Tag("</td>")]
  }

  function RowPieces(r: Object, cols: seq<string>): seq<Piece> {
    [Tag("<tr>")] + DataCells(r, cols) + [Tag("</tr>")]
  }

  /** One `<tr>` per row. */
  function BodyRows(rows: seq<Object>, cols: seq<string>): seq<Piece> {
    if rows == [] then []
    else BodyRows(rows[..|rows| - 1], cols) + RowPieces(rows[|rows| - 1], cols)
  }

  function HeadPieces(cols: seq<string>): seq<Piece> {
    [TableOpen, Tag("<thead>"), Tag("<tr>")] + HeaderCells(cols) + [Tag("</tr>"), Tag("</thead>"), Tag("<tbody>")]
  }

  /** The table the rows are rendered into: the first row's keys head the columns. */
  function TablePieces(rows: seq<Object>): seq<Piece>
    requires rows != []
  {
    var cols := Keys(rows[0]);
    HeadPieces(cols) + BodyRows(rows, cols) + [Tag("</tbody>"), Tag("</table>")]
  }

  const NoResults := "<p>No hay resultados</p>"

  const TableStart := "<table class=\"table\">" + "<thead>" + "<tr>"
  const HeadEnd := "</tr>" + "</thead>" + "<tbody>"
  const TableEnd := "</tbody>" + "</table>"

  lemma Regroup(pre: string, x: string, a: string, b: string, c: string)
    ensures pre + (x + a + b + c) == pre + x + a + b + c
  {
  }

  lemma Regroup3(x: string, a: string, b: string, c: string)
    ensures x + (a + b + c) == x + a + b + c
  {
  }

  lemma HeaderStep(pre: string, cols: seq<string>, i: nat)
    requires i < |cols|
    ensures pre + Render(HeaderCells(cols[..i + 1])) == pre + Render(HeaderCells(cols[..i])) + "<th>" + cols[i] + "</th>"
  {
    var front := HeaderCells(cols[..i]);
    var x := Render(front);
    var cell := [Tag("<th>"), Text(cols[i]), Tag("</th>")];
    assert HeaderCells(cols[..i + 1]) == front + cell by {
      assert cols[..i + 1][..i] == cols[..i];
    }
    assert Render(front + cell) == x + "<th>" + cols[i] + "</th>" by {
      RenderAppend(front, cell);
      RenderThree(Tag("<th>"), Text(cols[i]), Tag("</th>"));
      Regroup3(x, "<th>", cols[i], "</th>");
    }
    Regroup(pre, x, "<th>", cols[i], "</th>");
  }

  lemma CellStep(pre: string, r: Object, cols: seq<string>, k: nat)
    requires k < |cols|
    ensures pre + Render(DataCells(r, cols[..k + 1])) == pre + Render(DataCells(r, cols[..k])) + "<td>" + Cell(r, cols[k]) + "</td>"
  {
    var front := DataCells(r, cols[..k]);
    var x := Render(front);
    var v := Cell(r, cols[k]);
    var cell := [Tag("<td>"), Text(v), Tag("</td>")];
    assert DataCells(r, cols[..k + 1]) == front + cell by {
      assert cols[..k + 1][..k] == cols[..k];
    }
    assert Render(front + cell) == x + "<td>" + v + "</td>" by {
      RenderAppend(front, cell);
      RenderThree(Tag("<td>"), Text(v), Tag("</td>"));
      Regroup3(x, "<td>", v, "</td>");
    }
    Regroup(pre, x, "<td>", v, "</td>");
  }

  /** A row's markup: `<tr>`, its cells, `</tr>`. */
  lemma RowText(r: Object, cols: seq<string>)
    ensures Render(RowPieces(r, cols)) == "<tr>" + Render(DataCells(r, cols)) + "</tr>"
  {
    var cells := DataCells(r, cols);
    RenderAppend([Tag("<tr>")] + cells, [Tag("</tr>")]);
    RenderAppend([Tag("<tr>")], cells);
    assert [Tag("<tr>")][..0] == [] && [Tag("</tr>")][..0] == [];
  }

  /** Rendering one more row appends that row's pieces. */
  lemma BodyRowsSnoc(rows: seq<Object>, cols: seq<string>, j: nat)
    requires j < |rows|
    ensures BodyRows(rows[..j + 1], cols) == BodyRows(rows[..j], cols) + RowPieces(rows[j], cols)
  {
    assert rows[..j + 1][..j] == rows[..j];
  }

  lemma RowStep(pre: string, rows: seq<Object>, cols: seq<string>, j: nat)
    requires j < |rows|
    ensures pre + Render(BodyRows(rows[..j + 1], cols))
         == pre + Render(BodyRows(rows[..j], cols)) + "<tr>" + Render(DataCells(rows[j], cols)) + "</tr>"
  {
    var front := BodyRows(rows[..j], cols);
    var row := RowPieces(rows[j], cols);
    var x := Render(front);
    var d := Render(DataCells(rows[j], cols));
    assert Render(BodyRows(rows[..j + 1], cols)) == x + "<tr>" + d + "</tr>" by {
      BodyRowsSnoc(rows, cols, j);
      RenderAppend(front, row);
      RowText(rows[j], cols);
      Regroup3(x, "<tr>", d, "</tr>");
    }
    Regroup(pre, x, "<tr>", d, "</tr>");
  }

  /** The header's markup: the opening tags, one `<th>` per column, and the tags that open the body. */
  lemma HeadText(cols: seq<string>)
    ensures Render(HeadPieces(cols)) == TableStart + Render(HeaderCells(cols)) + HeadEnd
  {
    var h := HeaderCells(cols);
    var pre := [TableOpen, Tag("<thead>"), Tag("<tr>")];
    var mid := [Tag("</tr>"), Tag("</thead>"), Tag("<tbody>")];
    assert Render(pre + h + mid) == Render(pre + h) + HeadEnd by {
      RenderAppend(pre + h, mid);
      RenderThree(Tag("</tr>"), Tag("</thead>"), Tag("<tbody>"));
    }
    assert Render(pre + h) == TableStart + Render(h) by {
      RenderAppend(pre, h);
      RenderThree(TableOpen, Tag("<thead>"), Tag("<tr>"));
    }
  }

  lemma TailText()
    ensures Render([Tag("</tbody>"), Tag("</table>")]) == TableEnd
  {
    assert [Tag("</tbody>"), Tag("</table>")][..1] == [Tag("</tbody>")];
    assert [Tag("</tbody>")][..0] == [];
  }

  /** The table's markup, part by part. */
  lemma TableText(rows: seq<Object>)
    requires rows != []
    ensures var cols := Keys(rows[0]);
      Render(TablePieces(rows)) == TableStart + Render(HeaderCells(cols)) + HeadEnd + Render(BodyRows(rows, cols)) + TableEnd
  {
    var cols := Keys(rows[0]);
    var head := HeadPieces(cols);
    var b := BodyRows(rows, cols);
    var post := [Tag("</tbody>"), Tag("</table>")];
    assert Render(head + b + post) == Render(head) + Render(b) + TableEnd by {
      RenderAppend(head + b, post);
      RenderAppend(head, b);
      TailText();
    }
    HeadText(cols);
  }

  /**
   * `renderTableHtml(rows)`, appending to `html` column by column and row by
   * row; `None` stands for a null or undefined argument.
   */
  method RenderTableHtml(rows: Option<seq<Object>>) returns (html: string)
    ensures rows.None? || rows.value == [] ==> html == NoResults
    ensures rows.Some? && rows.value != [] ==> html == Render(TablePieces(rows.value))
  {
    if rows.None? || |rows.value| == 0 {
      return NoResults;
    }
    var rs := rows.value;
    var cols := Keys(rs[0]);
    html := TableStart;
    for i := 0 to |cols|
      invariant html == TableStart + Render(HeaderCells(cols[..i]))
    {
      HeaderStep(TableStart, cols, i);
      html := html + "<th>" + cols[i] + "</th>";
    }
    assert cols[..|cols|] == cols;
    html := html + HeadEnd;
    ghost var head := html;
    assert rs[..0] == [];
    for j := 0 to |rs|
      invariant html == head + Render(BodyRows(rs[..j], cols))
    {
      var r := rs[j];
      ghost var done := html;
      html := html + "<tr>";
      assert cols[..0] == [];
      for k := 0 to |cols|
        invariant html == done + "<tr>" + Render(DataCells(r, cols[..k]))
      {
        CellStep(done + "<tr>", r, cols, k);
        html := html + "<td>" + Cell(r, cols[k]) + "</td>";
      }
      assert cols[..|cols|] == cols;
      RowStep(head, rs, cols, j);
      html := html + "</tr>";
    }
    assert rs[..|rs|] == rs;
    TableText(rs);
    html := html + TableEnd;
  }

  /** How often `p` occurs in `ps`. */
  function Count(ps: seq<Piece>, p: Piece): nat {
    if ps == [] then 0 else Count(ps[..|ps| - 1], p) + (if ps[|ps| - 1] == p then 1 else 0)
  }

  lemma {:induction false} CountAppend(a: seq<Piece>, b: seq<Piece>, p: Piece)
    ensures Count(a + b, p) == Count(a, p) + Count(b, p)
    decreases |b|
  {
    if b == [] {
      assert a + b == a;
    } else {
      var n := |b|;
      assert (a + b)[..|a + b| - 1] == a + b[..n - 1];
      assert (a + b)[|a + b| - 1] == b[n - 1];
      CountAppend(a, b[..n - 1], p);
    }
  }

  function Occurs(x: Piece, p: Piece): nat {
    if x == p then 1 else 0
  }

  lemma CountThree(x: Piece, y: Piece, z: Piece, p: Piece)
    ensures Count([x, y, z], p) == Occurs(x, p) + Occurs(y, p) + Occurs(z, p)
  {
    assert [x][..0] == [];
    assert Count([x], p) == Occurs(x, p);
    assert [x, y][..1] == [x];
    assert Count([x, y], p) == Occurs(x, p) + Occurs(y, p);
    assert [x, y, z][..2] == [x, y];
  }

  lemma CountOne(x: Piece, p: Piece)
    ensures Count([x], p) == Occurs(x, p)
  {
    assert [x][..0] == [];
  }

  /** One `<th>` per column. */
  lemma {:induction false} HeaderCellCount(cols: seq<string>)
    ensures Count(HeaderCells(cols), Tag("<th>")) == |cols|
    ensures Count(HeaderCells(cols), Tag("<tr>")) == 0 && Count(HeaderCells(cols), Tag("<td>")) == 0
  {
    if cols != [] {
      var n := |cols|;
      HeaderCellCount(cols[..n - 1]);
      var x, y, z := Tag("<th>"), Text(cols[n - 1]), Tag("</th>");
      CountAppend(HeaderCells(cols[..n - 1]), [x, y, z], Tag("<th>"));
      CountAppend(HeaderCells(cols[..n - 1]), [x, y, z], Tag("<tr>"));
      CountAppend(HeaderCells(cols[..n - 1]), [x, y, z], Tag("<td>"));
      CountThree(x, y, z, Tag("<th>"));
      CountThree(x, y, z, Tag("<tr>"));
      CountThree(x, y, z, Tag("<td>"));
    }
  }

  /** Exactly `cols.length` `<td>` cells in a row. */
  lemma {:induction false} DataCellCount(r: Object, cols: seq<string>)
    ensures Count(DataCells(r, cols), Tag("<td>")) == |cols|
    ensures Count(DataCells(r, cols), Tag("<tr>")) == 0 && Count(DataCells(r, cols), Tag("<th>")) == 0
  {
    if cols != [] {
      var n := |cols|;
      DataCellCount(r, cols[..n - 1]);
      var x, y, z := Tag("<td>"), Text(Cell(r, cols[n - 1])), Tag("</td>");
      CountAppend(DataCells(r, cols[..n - 1]), [x, y, z], Tag("<td>"));
      CountAppend(DataCells(r, cols[..n - 1]), [x, y, z], Tag("<tr>"));
      CountAppend(DataCells(r, cols[..n - 1]), [x, y, z], Tag("<th>"));
      CountThree(x, y, z, Tag("<td>"));
      CountThree(x, y, z, Tag("<tr>"));
      CountThree(x, y, z, Tag("<th>"));
    }
  }

  /** A row is one `<tr>` holding `cols.length` cells. */
  lemma RowCount(r: Object, cols: seq<string>)
    ensures Count(RowPieces(r, cols), Tag("<tr>")) == 1
    ensures Count(RowPieces(r, cols), Tag("<td>")) == |cols|
    ensures Count(RowPieces(r, cols), Tag("<th>")) == 0
  {
    DataCellCount(r, cols);
    var cells := DataCells(r, cols);
    CountAppend([Tag("<tr>")] + cells, [Tag("</tr>")], Tag("<tr>"));
    CountAppend([Tag("<tr>")] + cells, [Tag("</tr>")], Tag("<td>"));
    CountAppend([Tag("<tr>")] + cells, [Tag("</tr>")], Tag("<th>"));
    CountAppend([Tag("<tr>")], cells, Tag("<tr>"));
    CountAppend([Tag("<tr>")], cells, Tag("<td>"));
    CountAppend([Tag("<tr>")], cells, Tag("<th>"));
    CountOne(Tag("<tr>"), Tag("<tr>"));
    CountOne(Tag("<tr>"), Tag("<td>"));
    CountOne(Tag("<tr>"), Tag("<th>"));
    CountOne(Tag("</tr>"), Tag("<tr>"));
    CountOne(Tag("</tr>"), Tag("<td>"));
    CountOne(Tag("</tr>"), Tag("<th>"));
  }

  lemma MulStep(n: nat, c: nat)
    requires n > 0
    ensures (n - 1) * c + c == n * c
  {
  }

  /** Rows that each hold `per` copies of `p` hold `|rows| * per` of them together. */
  lemma {:induction false} RowsCount(rows: seq<Object>, cols: seq<string>, p: Piece, per: nat)
    requires forall r :: Count(RowPieces(r, cols), p) == per
    ensures Count(BodyRows(rows, cols), p) == |rows| * per
  {
    if rows != [] {
      var n := |rows|;
      var front := BodyRows(rows[..n - 1], cols);
      var row := RowPieces(rows[n - 1], cols);
      assert BodyRows(rows, cols) == front + row;
      RowsCount(rows[..n - 1], cols, p, per);
      CountAppend(front, row, p);
      MulStep(n, per);
    }
  }

  /** One `<tr>` per row, with `cols.length` cells each. */
  lemma BodyRowCount(rows: seq<Object>, cols: seq<string>)
    ensures Count(BodyRows(rows, cols), Tag("<tr>")) == |rows|
    ensures Count(BodyRows(rows, cols), Tag("<td>")) == |rows| * |cols|
    ensures Count(BodyRows(rows, cols), Tag("<th>")) == 0
  {
    forall r: Object
      ensures Count(RowPieces(r, cols), Tag("<tr>")) == 1
      ensures Count(RowPieces(r, cols), Tag("<td>")) == |cols|
      ensures Count(RowPieces(r, cols), Tag("<th>")) == 0
    {
      RowCount(r, cols);
    }
    RowsCount(rows, cols, Tag("<tr>"), 1);
    RowsCount(rows, cols, Tag("<td>"), |cols|);
    RowsCount(rows, cols, Tag("<th>"), 0);
  }

  /** The header: one `<tr>` and one `<th>` per column. */
  lemma HeadCount(cols: seq<string>)
    ensures Count(HeadPieces(cols), Tag("<tr>")) == 1
    ensures Count(HeadPieces(cols), Tag("<th>")) == |cols|
    ensures Count(HeadPieces(cols), Tag("<td>")) == 0
  {
    var pre := [TableOpen, Tag("<thead>"), Tag("<tr>")];
    var mid := [Tag("</tr>"), Tag("</thead>"), Tag("<tbody>")];
    HeaderCellCount(cols);
    CountAppend(pre + HeaderCells(cols), mid, Tag("<tr>"));
    CountAppend(pre + HeaderCells(cols), mid, Tag("<th>"));
    CountAppend(pre + HeaderCells(cols), mid, Tag("<td>"));
    CountAppend(pre, HeaderCells(cols), Tag("<tr>"));
    CountAppend(pre, HeaderCells(cols), Tag("<th>"));
    CountAppend(pre, HeaderCells(cols), Tag("<td>"));
    CountThree(TableOpen, Tag("<thead>"), Tag("<tr>"), Tag("<tr>"));
    CountThree(TableOpen, Tag("<thead>"), Tag("<tr>"), Tag("<th>"));
    CountThree(TableOpen, Tag("<thead>"), Tag("<tr>"), Tag("<td>"));
    CountThree(Tag("</tr>"), Tag("</thead>"), Tag("<tbody>"), Tag("<tr>"));
    CountThree(Tag("</tr>"), Tag("</thead>"), Tag("<tbody>"), Tag("<th>"));
    CountThree(Tag("</tr>"), Tag("</thead>"), Tag("<tbody>"), Tag("<td>"));
  }

  /**
   * The rendered table has a header row with one `<th>` per key of the first
   * row, then one `<tr>` per row, each with `cols.length` `<td>` cells.
   */
  lemma TableShape(rows: seq<Object>)
    requires rows != []
    ensures var cols := Keys(rows[0]);
      && Count(TablePieces(rows), Tag("<th>")) == |cols|
      && Count(TablePieces(rows), Tag("<tr>")) == |rows| + 1
      && Count(TablePieces(rows), Tag("<td>")) == |rows| * |cols|
  {
    var cols := Keys(rows[0]);
    var head := HeadPieces(cols);
    var body := BodyRows(rows, cols);
    var post := [Tag("</tbody>"), Tag("</table>")];
    assert post == [Tag("</tbody>")] + [Tag("</table>")];
    HeadCount(cols);
    BodyRowCount(rows, cols);
    CountAppend(head + body, post, Tag("<tr>"));
    CountAppend(head + body, post, Tag("<th>"));
    CountAppend(head + body, post, Tag("<td>"));
    CountAppend(head, body, Tag("<tr>"));
    CountAppend(head, body, Tag("<th>"));
    CountAppend(head, body, Tag("<td>"));
    CountAppend([Tag("</tbody>")], [Tag("</table>")], Tag("<tr>"));
    CountAppend([Tag("</tbody>")], [Tag("</table>")], Tag("<th>"));
    CountAppend([Tag("</tbody>")], [Tag("</table>")], Tag("<td>"));
    CountOne(Tag("</tbody>"), Tag("<tr>"));
    CountOne(Tag("</tbody>"), Tag("<th>"));
    CountOne(Tag("</tbody>"), Tag("<td>"));
    CountOne(Tag("</table>"), Tag("<tr>"));
    CountOne(Tag("</table>"), Tag("<th>"));
    CountOne(Tag("</table>"), Tag("<td>"));
  }

  /** The rendered table opens with `<table class="table"><thead><tr>` and closes with `</tbody></table>`. */
  lemma TableFrame(rows: seq<Object>)
    requires rows != []
    ensures var html := Render(TablePieces(rows));
      && |html| >= |TableStart| + |TableEnd|
      && html[..|TableStart|] == TableStart
      && html[|html| - |TableEnd|..] == TableEnd
  {
    var cols := Keys(rows[0]);
    TableText(rows);
    Framed(TableStart, Render(HeaderCells(cols)), HeadEnd, Render(BodyRows(rows, cols)), TableEnd);
  }

  lemma Framed(a: string, m1: string, m2: string, m3: string, e: string)
    ensures |a + m1 + m2 + m3 + e| >= |a| + |e|
    ensures (a + m1 + m2 + m3 + e)[..|a|] == a
    ensures (a + m1 + m2 + m3 + e)[|a + m1 + m2 + m3 + e| - |e|..] == e
  {
  }

  /** A NULL value and a missing key both render as an empty cell. */
  lemma NullRendersEmpty(r: Object, c: string)
    requires Get(r, c).None? || Get(r, c) == Some(Null)
    ensures DataCells(r, [c]) == [Tag("<td>"), Text(""), Tag("</td>")]
  {
    assert [c][..0] == [];
  }

  // ---------------------------------------------------------------------------
  // Forms

  /**
   * `(CRUD_CONFIG[tabla] || [])` ready for `.forEach`: the field list, or
   * `None` when the lookup finds a member every object inherits (a function,
   * or `Object.prototype` for `__proto__`), which has no `forEach`, so the
   * call throws a TypeError.
   */
  function CrudFields(tabla: string): Option<seq<string>> {
    if tabla == "Pacientes" then Some(["nombre", "edad", "direccion", "telefono"])
    else if tabla == "Doctores" then Some(["nombre", "especialidad", "telefono"])
    else if tabla == "Citas" then Some(["paciente_id", "doctor_id", "fecha"])
    else if tabla in Crud.PrototypeNames then None
    else Some([])
  }

  /**
   * The form offers exactly the columns the server's registry accepts and
   * nothing for other tables, except that the names every object inherits
   * make the page throw.
   */
  lemma CrudFieldsMatchServer(tabla: string)
    ensures Crud.Config(tabla).Some? ==> CrudFields(tabla) == Some(Crud.Config(tabla).value.campos)
    ensures Crud.Config(tabla).None? && tabla !in Crud.PrototypeNames ==> CrudFields(tabla) == Some([])
    ensures CrudFields(tabla).None? <==> tabla in Crud.PrototypeNames
  {
  }

  function LowerChar(c: char): char {
    if 'A' <= c <= 'Z' then (c as int + 32) as char else c
  }

  function Lower(s: string): (t: string)
    ensures |t| == |s|
    ensures forall i :: 0 <= i < |s| ==> t[i] == LowerChar(s[i])
  {
    seq(|s|, i requires 0 <= i < |s| => LowerChar(s[i]))
  }

  /** `p` occurs in `s` at some position. */
  predicate HasInfix(s: string, p: string)
    decreases |s|
  {
    |p| <= |s| && (s[..|p|] == p || HasInfix(s[1..], p))
  }

  predicate HasSuffix(s: string, p: string) {
    |p| <= |s| && s[|s| - |p|..] == p
  }

  /** `/edad|telefono|_id|ID$/i.test(campo)` */
  predicate IsNumericField(campo: string) {
    var l := Lower(campo);
    HasInfix(l, "edad") || HasInfix(l, "telefono") || HasInfix(l, "_id") || HasSuffix(l, "id")
  }

  /** The input type `renderCrudForm` gives a field. */
  function InputType(campo: string): (t: string)
    ensures t == "number" <==> IsNumericField(campo)
    ensures t == "datetime-local" <==> !IsNumericField(campo) && campo == "fecha"
    ensures t == "text" <==> !IsNumericField(campo) && campo != "fecha"
  {
    if IsNumericField(campo) then "number" else if campo == "fecha" then "datetime-local" else "text"
  }

  /** Lower-casing leaves a string without capitals as it is. */
  lemma LowerKeepsLowerCase(s: string)
    requires forall i :: 0 <= i < |s| ==> !('A' <= s[i] <= 'Z')
    ensures Lower(s) == s
  {
  }

  /** `p` occurring at position `i` of `s` is an infix of `s`. */
  lemma {:induction false} InfixAt(s: string, p: string, i: nat)
    requires i + |p| <= |s| && s[i..i + |p|] == p
    ensures HasInfix(s, p)
    decreases i
  {
    if i > 0 {
      assert s[1..][i - 1..i - 1 + |p|] == s[i..i + |p|];
      InfixAt(s[1..], p, i - 1);
    }
  }

  /** A string lacking one of the characters of `p` has no infix `p`. */
  lemma {:induction false} MissingCharNoInfix(s: string, p: string, c: char)
    requires c in p && c !in s
    ensures !HasInfix(s, p)
    decreases |s|
  {
    if |p| <= |s| {
      assert c !in s[..|p|] by {
        assert forall k :: 0 <= k < |p| ==> s[..|p|][k] == s[k];
      }
      assert c !in s[1..] by {
        assert forall k :: 0 <= k < |s| - 1 ==> s[1..][k] == s[k + 1];
      }
      MissingCharNoInfix(s[1..], p, c);
    }
  }

  /** The numeric inputs of the patient and appointment forms. */
  lemma NumericFormFields()
    ensures InputType("edad") == "number" && InputType("telefono") == "number"
    ensures InputType("paciente_id") == "number" && InputType("doctor_id") == "number"
  {
    assert IsNumericField("edad") by {
      LowerKeepsLowerCase("edad");
      InfixAt("edad", "edad", 0);
    }
    assert IsNumericField("telefono") by {
      LowerKeepsLowerCase("telefono");
      InfixAt("telefono", "telefono", 0);
    }
    assert IsNumericField("paciente_id") by {
      LowerKeepsLowerCase("paciente_id");
      assert HasSuffix("paciente_id", "id") by {
        assert "paciente_id"[9..] == "id";
      }
    }
    assert IsNumericField("doctor_id") by {
      LowerKeepsLowerCase("doctor_id");
      assert HasSuffix("doctor_id", "id") by {
        assert "doctor_id"[7..] == "id";
      }
    }
  }

  /**
   * A lower-case field name missing a letter of "edad", a letter of
   * "telefono" and the underscore, and not ending in "id", is not numeric.
   */
  lemma NotNumeric(s: string, e: char, t: char)
    requires forall i :: 0 <= i < |s| ==> !('A' <= s[i] <= 'Z')
    requires e in "edad" && e !in s
    requires t in "telefono" && t !in s
    requires '_' !in s
    requires !HasSuffix(s, "id")
    ensures !IsNumericField(s)
  {
    LowerKeepsLowerCase(s);
    MissingCharNoInfix(s, "edad", e);
    MissingCharNoInfix(s, "telefono", t);
    MissingCharNoInfix(s, "_id", '_');
  }

  /** "fecha" gets a date-and-time input. */
  lemma DateFormField()
    ensures InputType("fecha") == "datetime-local"
  {
    var s := "fecha";
    assert forall i :: 0 <= i < |s| ==> !('A' <= s[i] <= 'Z') && s[i] != 'd' && s[i] != 't' && s[i] != '_';
    assert !HasSuffix(s, "id") by {
      assert s[3..] == "ha";
    }
    NotNumeric(s, 'd', 't');
  }

  lemma NameIsText()
    ensures !IsNumericField("nombre")
  {
    var s := "nombre";
    assert forall i :: 0 <= i < |s| ==> !('A' <= s[i] <= 'Z') && s[i] != 'd' && s[i] != 't' && s[i] != '_';
    assert !HasSuffix(s, "id") by {
      assert s[4..] == "re";
    }
    NotNumeric(s, 'd', 't');
  }

  lemma AddressIsText()
    ensures !IsNumericField("direccion")
  {
    var s := "direccion";
    assert forall i :: 0 <= i < |s| ==> !('A' <= s[i] <= 'Z') && s[i] != 'a' && s[i] != 't' && s[i] != '_';
    assert !HasSuffix(s, "id") by {
      assert s[7..] == "on";
    }
    NotNumeric(s, 'a', 't');
  }

  /** The text inputs of the patient form. */
  lemma TextFormFields()
    ensures InputType("nombre") == "text" && InputType("direccion") == "text"
  {
    NameIsText();
    AddressIsText();
  }

  /** Every character is a decimal digit. */
  predicate AllDigits(s: string) {
    forall i :: 0 <= i < |s| ==> '0' <= s[i] <= '9'
  }

  /** `Number(v)` on the integer forms an input yields: digits with an optional '-'; `None` stands for `NaN`. */
  function ParseInt(v: string): (r: Option<int>)
    ensures r.Some? <==> (v != [] && AllDigits(v)) || (|v| >= 2 && v[0] == '-' && AllDigits(v[1..]))
  {
    if v != [] && AllDigits(v) then Some(DigitsValue(v))
    else if |v| >= 2 && v[0] == '-' && AllDigits(v[1..]) then Some(-(DigitsValue(v[1..]) as int))
    else None
  }

  /** Reading back the text of an integer gives the integer. */
  lemma ParseIntRoundTrip(n: int)
    ensures ParseInt(IntToString(n)) == Some(n)
  {
    if n < 0 {
      var m: nat := -n;
      var t := NatToString(m);
      var s := "-" + t;
      assert IntToString(n) == s;
      assert !AllDigits(s) by {
        assert s[0] == '-';
      }
      assert s[1..] == t;
      assert AllDigits(t);
      assert DigitsValue(t) == m by {
        NatToStringRoundTrip(m);
      }
      assert ParseInt(s) == Some(n);
    } else {
      var t := NatToString(n);
      assert IntToString(n) == t;
      assert AllDigits(t);
      assert DigitsValue(t) == n by {
        NatToStringRoundTrip(n);
      }
      assert ParseInt(t) == Some(n);
    }
  }

  /**
   * The value `collectForm` stores for field `c` holding text `v`: numeric
   * fields go through `Number` (empty text becoming null), and then every
   * falsy result — '', 0, NaN — becomes null.
   */
  function Coerce(c: string, v: string): (r: Value)
    ensures v == "" ==> r == Null
    ensures r.Num? ==> IsNumericField(c) && r.n != 0
    ensures r.Str? ==> !IsNumericField(c) && r.s == v
  {
    if v == "" then Null
    else if IsNumericField(c) then
      match ParseInt(v)
      case Some(n) => if n == 0 then Null else Num(n)
      case None => Null
    else Str(v)
  }

  /** Zero, NaN and empty text are all sent as null; other values arrive as typed. */
  lemma CoerceFalsyToNull(c: string, n: int)
    ensures Coerce(c, "") == Null
    ensures IsNumericField(c) ==> Coerce(c, "0") == Null && Coerce(c, "abc") == Null
    ensures IsNumericField(c) && n != 0 ==> Coerce(c, IntToString(n)) == Num(n)
    ensures !IsNumericField(c) ==> Coerce(c, "0") == Str("0")
  {
    assert DigitsValue("0") == 0;
    assert !AllDigits("abc") by { assert !('0' <= "abc"[0] <= '9'); }
    ParseIntRoundTrip(n);
  }

  /** The body `collectForm` builds: fields of `fields` that have an input in `form`, in order. */
  function FormBody(fields: seq<string>, form: map<string, string>): (o: Object)
    ensures forall i :: 0 <= i < |o| ==> o[i].0 in fields && o[i].0 in form && o[i].1 == Coerce(o[i].0, form[o[i].0])
  {
    if fields == [] then []
    else
      var n := |fields|;
      var front := FormBody(fields[..n - 1], form);
      if fields[n - 1] in form then front + [(fields[n - 1], Coerce(fields[n - 1], form[fields[n - 1]]))] else front
  }

  /**
   * Completeness of the body: every field of `fields` that has an input in
   * `form` is sent, with its coerced text.
   */
  lemma {:induction false} FormBodyComplete(fields: seq<string>, form: map<string, string>)
    ensures forall c :: c in fields && c in form ==> (c, Coerce(c, form[c])) in FormBody(fields, form)
  {
    if fields != [] {
      var n := |fields|;
      FormBodyComplete(fields[..n - 1], form);
      forall c | c in fields && c in form
        ensures (c, Coerce(c, form[c])) in FormBody(fields, form)
      {
        if c != fields[n - 1] {
          var j :| 0 <= j < n && fields[j] == c;
          assert fields[..n - 1][j] == c;
        }
      }
    }
  }

  /** The names of `fields` that have an input in `form`, in the order of `fields` (read front to back). */
  ghost function FieldsWithInput(fields: seq<string>, form: map<string, string>): seq<string>
  {
    if fields == [] then []
    else (if fields[0] in form then [fields[0]] else []) + FieldsWithInput(fields[1..], form)
  }

  lemma {:induction false} FieldsWithInputLast(fields: seq<string>, form: map<string, string>)
    requires fields != []
    ensures var n := |fields|;
      FieldsWithInput(fields, form) == FieldsWithInput(fields[..n - 1], form) + (if fields[n - 1] in form then [fields[n - 1]] else [])
  {
    var n := |fields|;
    if n > 1 {
      assert fields[..n - 1][1..] == fields[1..][..n - 2];
      FieldsWithInputLast(fields[1..], form);
    }
  }

  /** The body's keys are exactly the fields that have an input, in the order of `fields`. */
  lemma {:induction false} FormBodyOrder(fields: seq<string>, form: map<string, string>)
    ensures Keys(FormBody(fields, form)) == FieldsWithInput(fields, form)
  {
    if fields != [] {
      var n := |fields|;
      var front, c := fields[..n - 1], fields[n - 1];
      var last := if c in form then [(c, Coerce(c, form[c]))] else [];
      assert FormBody(fields, form) == FormBody(front, form) + last;
      KeysAppend(FormBody(front, form), last);
      assert Keys(last) == (if c in form then [c] else []);
      FormBodyOrder(front, form);
      FieldsWithInputLast(fields, form);
    }
  }

  /**
   * `collectForm(tabla)`: `form` maps each field that has an input element to
   * that input's text; the object is filled field by field.
   */
  method CollectForm(tabla: string, form: map<string, string>) returns (o: Option<Object>)
    ensures o.None? <==> tabla in Crud.PrototypeNames
    ensures o.Some? ==> o.value == FormBody(CrudFields(tabla).value, form)
    ensures o.Some? ==> Keys(o.value) == FieldsWithInput(CrudFields(tabla).value, form)
    ensures o.Some? ==> forall c :: c in CrudFields(tabla).value && c in form ==> (c, Coerce(c, form[c])) in o.value
  {
    CrudFieldsMatchServer(tabla);
    var config := CrudFields(tabla);
    if config.None? {
      return None;  // TypeError: `forEach` is not a function
    }
    var fields := config.value;
    var body := [];
    for i := 0 to |fields|
      invariant body == FormBody(fields[..i], form)
    {
      assert fields[..i + 1][..i] == fields[..i];
      var c := fields[i];
      if c !in form {
        continue;
      }
      var v := form[c];
      body := body + [(c, Coerce(c, v))];
    }
    assert fields[..|fields|] == fields;
    FormBodyComplete(fields, form);
    FormBodyOrder(fields, form);
    o := Some(body);
  }

  /**
   * The body names only the table's form fields; for an unknown table that
   * is not an inherited name it is `{}`.
   */
  lemma FormBodyKeys(tabla: string, form: map<string, string>)
    ensures CrudFields(tabla).Some? ==>
      forall k :: k in Keys(FormBody(CrudFields(tabla).value, form)) ==> k in CrudFields(tabla).value
    ensures Crud.Config(tabla).None? && tabla !in Crud.PrototypeNames ==> FormBody(CrudFields(tabla).value, form) == []
  {
    if CrudFields(tabla).Some? {
      var fields := CrudFields(tabla).value;
      var o := FormBody(fields, form);
      forall k | k in Keys(o)
        ensures k in fields
      {
        var i :| 0 <= i < |o| && Keys(o)[i] == k;
      }
    }
  }

  /**
   * Every field the form sends is one the server keeps: the server's
   * projection of a collected body retains each of its entries.
   */
  lemma ServerKeepsEveryFormField(tabla: string, form: map<string, string>)
    requires Crud.Config(tabla).Some?
    ensures CrudFields(tabla).Some?
    ensures var o := FormBody(CrudFields(tabla).value, form);
      forall i :: 0 <= i < |o| ==> o[i].0 in Keys(Crud.Projection(Crud.Config(tabla).value.campos, o))
  {
    CrudFieldsMatchServer(tabla);
    var o := FormBody(CrudFields(tabla).value, form);
    var p := Crud.Projection(Crud.Config(tabla).value.campos, o);
    Crud.ProjectionComplete(Crud.Config(tabla).value.campos, o);
    forall i | 0 <= i < |o|
      ensures o[i].0 in Keys(p)
    {
      assert o[i].0 in Keys(o) by { assert Keys(o)[i] == o[i].0; }
      var v := Get(o, o[i].0).value;
      var k :| 0 <= k < |p| && p[k] == (o[i].0, v);
      assert Keys(p)[k] == o[i].0;
    }
  }

  // ---------------------------------------------------------------------------
  // Update and delete from the page

  /** What a click on update or delete does: show a prompt, or send a request. */
  datatype ClientAction =
    | Prompt(message: string)
    | Request(httpMethod: string, path: string, body: Option<Object>)
    | Thrown   // an uncaught TypeError: no prompt and no request

  /**
   * The later `crudUpdate`: the form is collected before the id is checked,
   * outside the `try`, so an inherited table name throws first; otherwise
   * nothing is sent without an id.
   */
  function CrudUpdate(tabla: string, id: string, form: map<string, string>): (a: ClientAction)
    ensures a.Thrown? <==> tabla in Crud.PrototypeNames
    ensures a.Prompt? <==> id == "" && tabla !in Crud.PrototypeNames
    ensures a.Prompt? ==> a.message == "Ingresa ID para actualizar"
    ensures a.Request? ==> a.httpMethod == "PUT" && a.path == "/crud/" + tabla + "/" + id
                           && a.body == Some(FormBody(CrudFields(tabla).value, form))
  {
    match CrudFields(tabla)
    case None => Thrown
    case Some(fields) =>
      if id == "" then Prompt("Ingresa ID para actualizar")
      else Request("PUT", "/crud/" + tabla + "/" + id, Some(FormBody(fields, form)))
  }

  /** The later `crudDelete`: nothing is sent without an id. */
  function CrudDelete(tabla: string, id: string): (a: ClientAction)
    ensures a.Prompt? <==> id == ""
    ensures a.Prompt? ==> a.message == "Ingresa ID para eliminar"
    ensures a.Request? ==> a.httpMethod == "DELETE" && a.path == "/crud/" + tabla + "/" + id && a.body.None?
  {
    if id == "" then Prompt("Ingresa ID para eliminar")
    else Request("DELETE", "/crud/" + tabla + "/" + id, None)
  }

  /** The status line after the answer: `j.success ? done : '✗ ' + (j.error || 'Error')`. */
  function OutcomeMessage(done: string, resp: Response): (m: string)
    ensures resp.success ==> m == done
    ensures !resp.success && resp.error.Some? && resp.error.value != "" ==> m == "✗ " + resp.error.value
    ensures !resp.success && (resp.error.None? || resp.error == Some("")) ==> m == "✗ Error"
  {
    if resp.success then done
    else "✗ " + (if resp.error.Some? && resp.error.value != "" then resp.error.value else "Error")
  }
}
