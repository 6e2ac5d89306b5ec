/**
 * The tile address template of a WMTS `ResourceURL` and its resolution
 * for one tile: three literal replace-all substitutions.
 */
module TileUrl {
  import opened Decimal
  import opened Strings

  const MATRIX_PLACEHOLDER: string := "{TileMatrix}"
  const COLUMN_PLACEHOLDER: string := "{TileCol}"
  const ROW_PLACEHOLDER: string := "{TileRow}"

  datatype ResourceUrl = ResourceUrl(template: string) {
    /**
     * `get_tile_url`: replace every `{TileMatrix}` by the matrix identifier,
     * then every `{TileCol}` by the column's decimal text, then every
     * `{TileRow}` by the row's.
     */
    function GetTileUrl(matrixId: string, column: U32, row: U32): string {
      var withMatrixId := ReplaceAll(template, MATRIX_PLACEHOLDER, matrixId);
      var withColumn := ReplaceAll(withMatrixId, COLUMN_PLACEHOLDER, Format(column));
      ReplaceAll(withColumn, ROW_PLACEHOLDER, Format(row))
    }
  }

  /** Decimal text shares no character with any of the placeholders. */
  lemma DigitsAvoidPlaceholder(s: string, p: string)
    requires AllDigits(s)
    requires p == MATRIX_PLACEHOLDER || p == COLUMN_PLACEHOLDER || p == ROW_PLACEHOLDER
    ensures SharesNoChar(s, p)
  {
    assert forall i :: 0 <= i < |p| ==> !IsDigit(p[i]);
  }

  /**
   * Whatever the template, the resolved address contains none of the three
   * placeholders, as long as the matrix identifier is non-empty and shares
   * no character with `{TileMatrix}`.
   */
  lemma NoPlaceholderLeft(url: ResourceUrl, matrixId: string, column: U32, row: U32)
    requires |matrixId| > 0 && SharesNoChar(matrixId, MATRIX_PLACEHOLDER)
    ensures !Contains(url.GetTileUrl(matrixId, column, row), MATRIX_PLACEHOLDER)
    ensures !Contains(url.GetTileUrl(matrixId, column, row), COLUMN_PLACEHOLDER)
    ensures !Contains(url.GetTileUrl(matrixId, column, row), ROW_PLACEHOLDER)
  {
    var c, r := Format(column), Format(row);
    var s1 := ReplaceAll(url.template, MATRIX_PLACEHOLDER, matrixId);
    var s2 := ReplaceAll(s1, COLUMN_PLACEHOLDER, c);
    DigitsAvoidPlaceholder(c, MATRIX_PLACEHOLDER);
    DigitsAvoidPlaceholder(c, COLUMN_PLACEHOLDER);
    DigitsAvoidPlaceholder(r, MATRIX_PLACEHOLDER);
    DigitsAvoidPlaceholder(r, COLUMN_PLACEHOLDER);
    DigitsAvoidPlaceholder(r, ROW_PLACEHOLDER);
    ReplaceRemovesPattern(url.template, MATRIX_PLACEHOLDER, matrixId);
    ReplaceRemovesPattern(s1, COLUMN_PLACEHOLDER, c);
    ReplaceKeepsAbsent(s1, COLUMN_PLACEHOLDER, c, MATRIX_PLACEHOLDER);
    ReplaceRemovesPattern(s2, ROW_PLACEHOLDER, r);
    ReplaceKeepsAbsent(s2, ROW_PLACEHOLDER, r, MATRIX_PLACEHOLDER);
    ReplaceKeepsAbsent(s2, ROW_PLACEHOLDER, r, COLUMN_PLACEHOLDER);
  }

  /** A template without any placeholder is the address of every tile. */
  lemma TemplateWithoutPlaceholders(url: ResourceUrl, matrixId: string, column: U32, row: U32)
    requires !Contains(url.template, MATRIX_PLACEHOLDER)
    requires !Contains(url.template, COLUMN_PLACEHOLDER)
    requires !Contains(url.template, ROW_PLACEHOLDER)
    ensures url.GetTileUrl(matrixId, column, row) == url.template
  {
    ReplaceAbsent(url.template, MATRIX_PLACEHOLDER, matrixId);
    ReplaceAbsent(url.template, COLUMN_PLACEHOLDER, Format(column));
    ReplaceAbsent(url.template, ROW_PLACEHOLDER, Format(row));
  }

  /*
   * A reference reading of a template: literal text interleaved with
   * placeholders, and the address that filling in the placeholders gives.
   */

  datatype Slot = MatrixSlot | ColumnSlot | RowSlot

  datatype Piece = Literal(text: string) | Placeholder(slot: Slot)

  function SlotText(slot: Slot): string {
    match slot
    case MatrixSlot => MATRIX_PLACEHOLDER
    case ColumnSlot => COLUMN_PLACEHOLDER
    case RowSlot => ROW_PLACEHOLDER
  }

  function PieceText(piece: Piece): string {
    match piece
    case Literal(t) => t
    case Placeholder(slot) => SlotText(slot)
  }

  function PieceValue(piece: Piece, matrixId: string, column: U32, row: U32): string {
    match piece
    case Literal(t) => t
    case Placeholder(MatrixSlot) => matrixId
    case Placeholder(ColumnSlot) => Format(column)
    case Placeholder(RowSlot) => Format(row)
  }

  /** The template text that a sequence of pieces spells. */
  function Render(pieces: seq<Piece>): string {
    if pieces == [] then [] else PieceText(pieces[0]) + Render(pieces[1..])
  }

  /** The address meant by the pieces: each placeholder stands for its value. */
  function Substitute(pieces: seq<Piece>, matrixId: string, column: U32, row: U32): string {
    if pieces == [] then []
    else PieceValue(pieces[0], matrixId, column, row) + Substitute(pieces[1..], matrixId, column, row)
  }

  lemma Cons(piece: Piece, rest: seq<Piece>, matrixId: string, column: U32, row: U32)
    ensures Render([piece] + rest) == PieceText(piece) + Render(rest)
    ensures Substitute([piece] + rest, matrixId, column, row)
            == PieceValue(piece, matrixId, column, row) + Substitute(rest, matrixId, column, row)
  {
    assert ([piece] + rest)[1..] == rest;
  }

  /** The pieces with every placeholder `slot` turned into the literal `value`. */
  function Fill(pieces: seq<Piece>, slot: Slot, value: string): (r: seq<Piece>)
    ensures |r| == |pieces|
  {
    if pieces == [] then []
    else
      [if pieces[0] == Placeholder(slot) then Literal(value) else pieces[0]] + Fill(pieces[1..], slot, value)
  }

  /** No literal piece contains an opening brace. */
  predicate BraceFree(pieces: seq<Piece>) {
    forall i :: 0 <= i < |pieces| ==> pieces[i].Literal? ==> '{' !in pieces[i].text
  }

  /** The character that tells the placeholders apart: the first after `{Tile`. */
  function SlotLetter(slot: Slot): char {
    match slot
    case MatrixSlot => 'M'
    case ColumnSlot => 'C'
    case RowSlot => 'R'
  }

  /** Each placeholder opens with its only brace, and its sixth character names it. */
  lemma SlotShape(slot: Slot)
    ensures |SlotText(slot)| > 5 && SlotText(slot)[0] == '{' && SlotText(slot)[5] == SlotLetter(slot)
    ensures forall i :: 0 < i < |SlotText(slot)| ==> SlotText(slot)[i] != '{'
  {
  }

  /** No occurrence of one placeholder starts inside another one. */
  lemma OtherSlotNoMatch(other: Slot, slot: Slot, rest: string)
    requires other != slot
    ensures forall i: nat :: i < |SlotText(other)| ==> !OccursAt(SlotText(other) + rest, SlotText(slot), i)
  {
    var q, p := SlotText(other), SlotText(slot);
    SlotShape(other);
    SlotShape(slot);
    assert SlotLetter(other) != SlotLetter(slot);
    forall i: nat | i < |q| ensures !OccursAt(q + rest, p, i) {
      if i + |p| <= |q + rest| {
        var w := (q + rest)[i..i + |p|];
        if i == 0 {
          assert w[5] == q[5] != p[5];
        } else {
          assert w[0] == q[i] != p[0];
        }
      }
    }
  }

  /** One replace-all pass fills exactly the placeholders it names. */
  lemma {:induction false} ReplaceFills(pieces: seq<Piece>, slot: Slot, value: string)
    requires BraceFree(pieces)
    ensures ReplaceAll(Render(pieces), SlotText(slot), value) == Render(Fill(pieces, slot, value))
  {
    if pieces != [] {
      var rest := pieces[1..];
      assert BraceFree(rest) by {
        assert forall i :: 0 <= i < |rest| ==> rest[i] == pieces[i + 1];
      }
      ReplaceFills(rest, slot, value);
      var tail := Render(rest);
      var p := SlotText(slot);
      match pieces[0]
      case Literal(t) =>
        OpenerMissing(t, tail, p);
        ReplaceSkipsPrefix(t, tail, p, value);
      case Placeholder(other) =>
        if other == slot {
          ReplaceAtMatch(tail, p, value);
        } else {
          OtherSlotNoMatch(other, slot, tail);
          ReplaceSkipsPrefix(SlotText(other), tail, p, value);
        }
    }
  }

  lemma {:induction false} FillKeepsBraceFree(pieces: seq<Piece>, slot: Slot, value: string)
    requires BraceFree(pieces) && '{' !in value
    ensures BraceFree(Fill(pieces, slot, value))
  {
    if pieces != [] {
      var rest := pieces[1..];
      assert BraceFree(rest) by {
        assert forall i :: 0 <= i < |rest| ==> rest[i] == pieces[i + 1];
      }
      FillKeepsBraceFree(rest, slot, value);
      var r := Fill(pieces, slot, value);
      assert forall i :: 1 <= i < |r| ==> r[i] == Fill(rest, slot, value)[i - 1];
    }
  }

  lemma {:induction false} FilledThrice(pieces: seq<Piece>, matrixId: string, column: U32, row: U32)
    ensures Render(Fill(Fill(Fill(pieces, MatrixSlot, matrixId), ColumnSlot, Format(column)), RowSlot, Format(row)))
            == Substitute(pieces, matrixId, column, row)
  {
    if pieces != [] {
      FilledThrice(pieces[1..], matrixId, column, row);
    }
  }

  /**
   * For a template made of brace-free text and placeholders, in any order
   * and any number, resolution is exactly substitution: each placeholder
   * becomes its value and the text around it is kept.
   */
  lemma ResolveIsSubstitution(pieces: seq<Piece>, matrixId: string, column: U32, row: U32)
    requires BraceFree(pieces) && '{' !in matrixId
    ensures ResourceUrl(Render(pieces)).GetTileUrl(matrixId, column, row) == Substitute(pieces, matrixId, column, row)
  {
    var c, r := Format(column), Format(row);
    assert '{' !in c && '{' !in r;
    var p1 := Fill(pieces, MatrixSlot, matrixId);
    var p2 := Fill(p1, ColumnSlot, c);
    ReplaceFills(pieces, MatrixSlot, matrixId);
    FillKeepsBraceFree(pieces, MatrixSlot, matrixId);
    ReplaceFills(p1, ColumnSlot, c);
    FillKeepsBraceFree(p1, ColumnSlot, c);
    ReplaceFills(p2, RowSlot, r);
    FilledThrice(pieces, matrixId, column, row);
  }

  /**
   * The usual shape of a template, matrix then column then row between
   * brace-free text: the address is that text with the three values in place.
   */
  lemma TypicalTemplate(host: string, sep1: string, sep2: string, ext: string,
                        matrixId: string, column: U32, row: U32)
    requires '{' !in host && '{' !in sep1 && '{' !in sep2 && '{' !in ext && '{' !in matrixId
    ensures ResourceUrl(host + MATRIX_PLACEHOLDER + sep1 + COLUMN_PLACEHOLDER + sep2 + ROW_PLACEHOLDER + ext)
              .GetTileUrl(matrixId, column, row)
            == host + matrixId + sep1 + Format(column) + sep2 + Format(row) + ext
  {
    var p6 := [Literal(ext)];
    var p5 := [Placeholder(RowSlot)] + p6;
    var p4 := [Literal(sep2)] + p5;
    var p3 := [Placeholder(ColumnSlot)] + p4;
    var p2 := [Literal(sep1)] + p3;
    var p1 := [Placeholder(MatrixSlot)] + p2;
    var p0 := [Literal(host)] + p1;
    Cons(Literal(ext), [], matrixId, column, row);
    assert p6 == [Literal(ext)] + [];
    Cons(Placeholder(RowSlot), p6, matrixId, column, row);
    Cons(Literal(sep2), p5, matrixId, column, row);
    Cons(Placeholder(ColumnSlot), p4, matrixId, column, row);
    Cons(Literal(sep1), p3, matrixId, column, row);
    Cons(Placeholder(MatrixSlot), p2, matrixId, column, row);
    Cons(Literal(host), p1, matrixId, column, row);
    assert BraceFree(p0);
    ResolveIsSubstitution(p0, matrixId, column, row);
    Regroup(host, MATRIX_PLACEHOLDER, sep1, COLUMN_PLACEHOLDER, sep2, ROW_PLACEHOLDER, ext);
    Regroup(host, matrixId, sep1, Format(column), sep2, Format(row), ext);
  }

  lemma Regroup(a: string, b: string, c: string, d: string, e: string, f: string, g: string)
    ensures a + b + c + d + e + f + g == a + (b + (c + (d + (e + (f + (g + []))))))
  {
    assert g + [] == g;
  }

  /** The address of the first tile of a typical template. */
  lemma FirstTileExample()
    ensures ResourceUrl("https://host/" + MATRIX_PLACEHOLDER + "/" + COLUMN_PLACEHOLDER + "/" + ROW_PLACEHOLDER + ".png")
              .GetTileUrl("0", 0, 0)
            == "https://host/" + "0" + "/" + "0" + "/" + "0" + ".png"
  {
    assert Format(0) == "0" by { assert DigitChar(0) == '0'; }
    TypicalTemplate("https://host/", "/", "/", ".png", "0", 0, 0);
  }
}
