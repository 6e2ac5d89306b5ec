/**
 * `parse_wmts_xml`: the resource-URL template and the tile matrices of a
 * parsed WMTS capabilities document, keyed by matrix identifier.
 *
 * The document is given as its root node; turning the text into that tree
 * is the XML library's work and is not modelled. Every `unwrap` of a
 * missing element is a `MissingElement` failure, and a tile matrix that
 * cannot be read stops the whole parse.
 */
module WmtsCapabilities {
  import opened Wrappers
  import opened Xml
  import opened TileUrl
  import opened TileMatrices

  datatype Capabilities = Capabilities(resourceUrl: ResourceUrl, tileMatrices: map<string, TileMatrix>)

  datatype ParseError =
    | MissingElement(name: string)      // a `find(..).unwrap()` that found nothing
    | BadTileMatrix(error: MatrixError) // a number inside a `TileMatrix` that does not parse

  /** The children of the set that get read as tile matrices. */
  predicate IsMatrixNode(n: Node) {
    TagName(n) == "TileMatrix"
  }

  /**
   * The elements the parser walks to: the template of the first
   * `ResourceURL` below `Contents` (empty when it has none) and the
   * children of the first `TileMatrixSet` child of `Contents`, both under
   * the document's first node. A document without nodes yields an empty
   * template and no matrices.
   */
  function Locate(root: Node): (r: Result<(string, seq<Node>), ParseError>)
    ensures Children(root) == [] ==> r == Success(("", []))
    ensures r.Failure? ==> r.error.MissingElement? &&
                           r.error.name in {"Contents", "ResourceURL", "TileMatrixSet"}
  {
    if Children(root) == [] then Success(("", []))
    else
      match FindNamed(Children(Children(root)[0]), "Contents")
      case None => Failure(MissingElement("Contents"))
      case Some(contents) =>
        match FindNamed(Descendants(contents), "ResourceURL")
        case None => Failure(MissingElement("ResourceURL"))
        case Some(resource) =>
          match FindNamed(Children(contents), "TileMatrixSet")
          case None => Failure(MissingElement("TileMatrixSet"))
          case Some(matrixSet) =>
            Success((Attribute(resource, "template").GetOr(""), Children(matrixSet)))
  }

  /**
   * The map built from `items` in order: every `TileMatrix` item is read
   * and inserted under its identifier, replacing an earlier entry; the
   * first item that cannot be read is the result instead.
   */
  function MatricesOf(items: seq<Node>): Result<map<string, TileMatrix>, MatrixError> {
    if items == [] then Success(map[])
    else
      var last := items[|items| - 1];
      var prefix := items[..|items| - 1];
      match MatricesOf(prefix)
      case Failure(e) => Failure(e)
      case Success(matrices) =>
        if !IsMatrixNode(last) then Success(matrices)
        else
          match MatrixOf(Children(last))
          case Failure(e) => Failure(e)
          case Success(m) => Success(matrices[m.identifier := m])
  }

  /** The whole result of `parse_wmts_xml` on a parsed document. */
  function CapabilitiesOf(root: Node): Result<Capabilities, ParseError> {
    match Locate(root)
    case Failure(e) => Failure(e)
    case Success((template, items)) =>
      match MatricesOf(items)
      case Failure(e) => Failure(BadTileMatrix(e))
      case Success(matrices) => Success(Capabilities(ResourceUrl(template), matrices))
  }

  /** `parse_wmts_xml`, with a loop that inserts each tile matrix into the map. */
  method ParseWmtsXml(root: Node) returns (r: Result<Capabilities, ParseError>)
    ensures r == CapabilitiesOf(root)
  {
    var resourceUrl := ResourceUrl("");
    var tileMatrixMap: map<string, TileMatrix> := map[];
    if Children(root) != [] {
      var node := Children(root)[0];
      var contents := FindNamed(Children(node), "Contents");
      if contents.None? {
        return Failure(MissingElement("Contents"));
      }
      var resource := FindNamed(Descendants(contents.value), "ResourceURL");
      if resource.None? {
        return Failure(MissingElement("ResourceURL"));
      }
      var url := Attribute(resource.value, "template");
      if url.Some? {
        resourceUrl := ResourceUrl(url.value);
      }
      var matrixSet := FindNamed(Children(contents.value), "TileMatrixSet");
      if matrixSet.None? {
        return Failure(MissingElement("TileMatrixSet"));
      }
      var matrices := InsertMatrices(Children(matrixSet.value));
      if matrices.Failure? {
        return Failure(BadTileMatrix(matrices.error));
      }
      tileMatrixMap := matrices.value;
    }
    r := Success(Capabilities(resourceUrl, tileMatrixMap));
  }

  /** The loop of `parse_wmts_xml`: read each `TileMatrix` item and insert it under its identifier. */
  method InsertMatrices(items: seq<Node>) returns (r: Result<map<string, TileMatrix>, MatrixError>)
    ensures r == MatricesOf(items)
  {
    var tileMatrixMap: map<string, TileMatrix> := map[];
    var i := 0;
    while i < |items|
      invariant 0 <= i <= |items|
      invariant MatricesOf(items[..i]) == Success(tileMatrixMap)
    {
      var item := items[i];
      assert items[..i + 1] == items[..i] + [item];
      Snoc(items[..i], item);
      if IsMatrixNode(item) {
        var tm := FromNode(item);
        if tm.Failure? {
          BadPrefix(items, i + 1);
          return Failure(tm.error);
        }
        tileMatrixMap := tileMatrixMap[tm.value.identifier := tm.value];
      }
      i := i + 1;
    }
    assert items[..i] == items;
    return Success(tileMatrixMap);
  }

  /** Once a prefix of the items fails, the whole list fails the same way. */
  lemma {:induction false} BadPrefix(items: seq<Node>, i: nat)
    requires i <= |items| && MatricesOf(items[..i]).Failure?
    ensures MatricesOf(items) == MatricesOf(items[..i])
    decreases |items| - i
  {
    if i < |items| {
      assert items[..i + 1] == items[..i] + [items[i]];
      FailureExtends(items[..i], items[i]);
      BadPrefix(items, i + 1);
    } else {
      assert items[..i] == items;
    }
  }

  lemma FailureExtends(items: seq<Node>, n: Node)
    requires MatricesOf(items).Failure?
    ensures MatricesOf(items + [n]) == MatricesOf(items)
  {
    assert (items + [n])[..|items|] == items;
  }

  /** One more item after `items`: the definition read at `items + [n]`. */
  lemma Snoc(items: seq<Node>, n: Node)
    ensures MatricesOf(items + [n]) ==
            match MatricesOf(items)
            case Failure(e) => Failure(e)
            case Success(matrices) =>
              if !IsMatrixNode(n) then Success(matrices)
              else
                match MatrixOf(Children(n))
                case Failure(e) => Failure(e)
                case Success(m) => Success(matrices[m.identifier := m])
  {
    assert (items + [n])[..|items|] == items;
  }

  // ---------------------------------------------------------------------
  // What the map promises.

  /** The item at `j` is a tile matrix that reads as `m`. */
  predicate ReadsAs(items: seq<Node>, j: int, m: TileMatrix) {
    0 <= j < |items| && IsMatrixNode(items[j]) && MatrixOf(Children(items[j])) == Success(m)
  }

  /** The map is built exactly when every tile matrix reads cleanly. */
  lemma {:induction false} AllMatricesRead(items: seq<Node>)
    ensures MatricesOf(items).Success? <==>
            forall j :: 0 <= j < |items| && IsMatrixNode(items[j]) ==> MatrixOf(Children(items[j])).Success?
    decreases |items|
  {
    if items != [] {
      var prefix, last := items[..|items| - 1], items[|items| - 1];
      assert forall j :: 0 <= j < |prefix| ==> prefix[j] == items[j];
      AllMatricesRead(prefix);
      if MatricesOf(prefix).Success? && IsMatrixNode(last) && MatrixOf(Children(last)).Failure? {
        assert !(IsMatrixNode(items[|items| - 1]) ==> MatrixOf(Children(items[|items| - 1])).Success?);
      }
    }
  }

  /** A failure is the abort of the first tile matrix that cannot be read. */
  lemma {:induction false} FailureFromMatrix(items: seq<Node>)
    requires MatricesOf(items).Failure?
    ensures exists j :: 0 <= j < |items| && IsMatrixNode(items[j]) &&
                        MatrixOf(Children(items[j])) == Failure(MatricesOf(items).error) &&
                        forall i :: 0 <= i < j && IsMatrixNode(items[i]) ==> MatrixOf(Children(items[i])).Success?
    decreases |items|
  {
    var prefix := items[..|items| - 1];
    if MatricesOf(prefix).Failure? {
      FailureFromMatrix(prefix);
      var j :| 0 <= j < |prefix| && IsMatrixNode(prefix[j]) &&
               MatrixOf(Children(prefix[j])) == Failure(MatricesOf(prefix).error) &&
               forall i :: 0 <= i < j && IsMatrixNode(prefix[i]) ==> MatrixOf(Children(prefix[i])).Success?;
      assert forall i :: 0 <= i < |prefix| ==> prefix[i] == items[i];
    } else {
      AllMatricesRead(prefix);
      assert forall i :: 0 <= i < |prefix| ==> prefix[i] == items[i];
      assert IsMatrixNode(items[|items| - 1]);
    }
  }

  /** The keys are exactly the identifiers of the tile matrices read. */
  lemma {:induction false} KeysAreIdentifiers(items: seq<Node>, id: string)
    requires MatricesOf(items).Success?
    ensures id in MatricesOf(items).value <==> exists j, m :: ReadsAs(items, j, m) && m.identifier == id
    decreases |items|
  {
    if items != [] {
      var prefix := items[..|items| - 1];
      KeysAreIdentifiers(prefix, id);
      forall j, m | ReadsAs(prefix, j, m) ensures ReadsAs(items, j, m) {
        assert prefix[j] == items[j];
      }
      forall j, m | ReadsAs(items, j, m) && j < |prefix| ensures ReadsAs(prefix, j, m) {
        assert prefix[j] == items[j];
      }
      var last := items[|items| - 1];
      if IsMatrixNode(last) {
        assert ReadsAs(items, |items| - 1, MatrixOf(Children(last)).value);
      }
    }
  }

  /** Every entry is stored under its own identifier. */
  lemma {:induction false} KeyIsIdentifier(items: seq<Node>, id: string)
    requires MatricesOf(items).Success? && id in MatricesOf(items).value
    ensures MatricesOf(items).value[id].identifier == id
    decreases |items|
  {
    if items != [] {
      var prefix := items[..|items| - 1];
      if id in MatricesOf(prefix).value {
        KeyIsIdentifier(prefix, id);
      }
    }
  }

  /** The entry under an identifier is the last tile matrix read with that identifier. */
  lemma {:induction false} LastMatrixWins(items: seq<Node>, j: nat, m: TileMatrix)
    requires MatricesOf(items).Success? && ReadsAs(items, j, m)
    requires forall l, m' :: j < l && ReadsAs(items, l, m') ==> m'.identifier != m.identifier
    ensures m.identifier in MatricesOf(items).value && MatricesOf(items).value[m.identifier] == m
    decreases |items|
  {
    var prefix := items[..|items| - 1];
    var last := items[|items| - 1];
    if j < |prefix| {
      assert prefix[j] == items[j];
      forall l, m' | j < l && ReadsAs(prefix, l, m') ensures m'.identifier != m.identifier {
        assert prefix[l] == items[l];
        assert ReadsAs(items, l, m');
      }
      LastMatrixWins(prefix, j, m);
      if IsMatrixNode(last) {
        assert ReadsAs(items, |items| - 1, MatrixOf(Children(last)).value);
      }
    }
  }

  /** An item that is not a `TileMatrix` element is passed over wherever it stands. */
  lemma {:induction false} OtherItemIgnored(a: seq<Node>, n: Node, b: seq<Node>)
    requires !IsMatrixNode(n)
    ensures MatricesOf(a + [n] + b) == MatricesOf(a + b)
    decreases |b|
  {
    if b == [] {
      assert (a + [n] + b)[..|a|] == a;
      assert a + b == a;
    } else {
      var b', last := b[..|b| - 1], b[|b| - 1];
      assert a + [n] + b == (a + [n] + b') + [last];
      assert a + b == (a + b') + [last];
      OtherItemIgnored(a, n, b');
      Snoc(a + [n] + b', last);
      Snoc(a + b', last);
    }
  }
}
