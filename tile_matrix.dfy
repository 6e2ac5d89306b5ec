/**
 * The tile-matrix model read from a WMTS capabilities document:
 * `TileMatrix::from_node`.
 *
 * The program unwraps every parse result, so a malformed number aborts
 * the whole run; here that abort is a `Failure` naming what went wrong.
 */
module TileMatrices {
  import opened Wrappers
  import opened Decimal
  import opened Strings
  import opened Floats
  import opened Xml

  /** An `f64` field: its initial 0.0, or the literal text it was parsed from. */
  datatype Float = Zero | Parsed(text: string)

  datatype TileMatrix = TileMatrix(
    identifier: string,
    scaleDenominator: Float,
    topLeftCorner: (Float, Float),
    tileWidth: U32,
    tileHeight: U32,
    matrixWidth: U32,
    matrixHeight: U32)

  /** The value every field starts from before the children are read. */
  const DEFAULT_MATRIX := TileMatrix("", Zero, (Zero, Zero), 0, 0, 0, 0)

  /** Why the program would abort while reading one `TileMatrix` element. */
  datatype MatrixError =
    | InvalidNumber(field: string, text: string)   // `parse().unwrap()` on a malformed number
    | CornerIndexOutOfBounds(count: nat)           // more than two numbers in `TopLeftCorner`

  /** The fields a child element can set, by its tag name; any other name is `Unknown`. */
  datatype Field =
    | Identifier | ScaleDenominator | TopLeftCorner
    | TileWidth | TileHeight | MatrixWidth | MatrixHeight
    | Unknown
  {
    predicate IsU32() {
      TileWidth? || TileHeight? || MatrixWidth? || MatrixHeight?
    }
  }

  /** The dispatch on `tag_name().name()`. */
  function FieldOf(name: string): Field {
    if name == "Identifier" then Identifier
    else if name == "ScaleDenominator" then ScaleDenominator
    else if name == "TileWidth" then TileWidth
    else if name == "TileHeight" then TileHeight
    else if name == "MatrixWidth" then MatrixWidth
    else if name == "MatrixHeight" then MatrixHeight
    else if name == "TopLeftCorner" then TopLeftCorner
    else Unknown
  }

  /** The text a child contributes: present only for an element whose first child is text. */
  function FieldText(n: Node): Option<string> {
    if n.Element? then ElementText(n) else None
  }

  /** `TopLeftCorner` text, split on single spaces, every piece parsed as an `f64`. */
  function ParseFloats(parts: seq<string>): (r: Result<seq<Float>, MatrixError>)
    ensures r.Success? ==> |r.value| == |parts| && forall k :: 0 <= k < |parts| ==> r.value[k] == Parsed(parts[k])
  {
    if parts == [] then Success([])
    else if !IsF64Literal(parts[0]) then Failure(InvalidNumber("TopLeftCorner", parts[0]))
    else
      match ParseFloats(parts[1..])
      case Success(rest) => Success([Parsed(parts[0])] + rest)
      case Failure(e) => Failure(e)
  }

  /** The corner parses exactly when every piece is an `f64` literal. */
  lemma {:induction false} ParseFloatsAccepts(parts: seq<string>)
    ensures ParseFloats(parts).Success? <==> forall k :: 0 <= k < |parts| ==> IsF64Literal(parts[k])
  {
    if parts != [] {
      ParseFloatsAccepts(parts[1..]);
      assert forall k :: 1 <= k < |parts| ==> parts[k] == parts[1..][k - 1];
    }
  }

  /** A corner that does not parse is reported by one of its pieces that is not an `f64` literal. */
  lemma {:induction false} ParseFloatsRejects(parts: seq<string>)
    requires ParseFloats(parts).Failure?
    ensures ParseFloats(parts).error.InvalidNumber? && ParseFloats(parts).error.field == "TopLeftCorner"
    ensures ParseFloats(parts).error.text in parts && !IsF64Literal(ParseFloats(parts).error.text)
  {
    if IsF64Literal(parts[0]) {
      ParseFloatsRejects(parts[1..]);
      assert parts == [parts[0]] + parts[1..];
    }
  }

  /** The abort, if any, that reading child `n` causes. */
  function ChildError(n: Node): Option<MatrixError> {
    match FieldText(n)
    case None => None
    case Some(t) =>
      var f := FieldOf(n.name);
      if f.IsU32() then
        if ParseU32(t).None? then Some(InvalidNumber(n.name, t)) else None
      else if f == ScaleDenominator then
        if IsF64Literal(t) then None else Some(InvalidNumber(n.name, t))
      else if f == TopLeftCorner then
        match ParseFloats(Split(t, ' '))
        case Failure(e) => Some(e)
        case Success(fs) => if |fs| > 2 then Some(CornerIndexOutOfBounds(|fs|)) else None
      else None
  }

  /** The abort caused by the first child that causes one. */
  function FirstError(cs: seq<Node>): (r: Option<MatrixError>)
    ensures r.None? <==> forall j :: 0 <= j < |cs| ==> ChildError(cs[j]).None?
    ensures r.Some? ==> exists j :: 0 <= j < |cs| && ChildError(cs[j]) == r &&
                                    forall i :: 0 <= i < j ==> ChildError(cs[i]).None?
  {
    if cs == [] then None
    else if ChildError(cs[0]).Some? then ChildError(cs[0])
    else
      var rest := FirstError(cs[1..]);
      assert forall j :: 1 <= j < |cs| ==> cs[j] == cs[1..][j - 1];
      assert rest.Some? ==> exists j :: 1 <= j < |cs| && ChildError(cs[j]) == rest &&
                                       forall i :: 0 <= i < j ==> ChildError(cs[i]).None? by {
        if rest.Some? {
          var j :| 0 <= j < |cs[1..]| && ChildError(cs[1..][j]) == rest &&
                   forall i :: 0 <= i < j ==> ChildError(cs[1..][i]).None?;
          assert forall i :: 0 <= i < j + 1 ==> ChildError(cs[i]).None? by {
            forall i | 0 < i < j + 1 ensures ChildError(cs[i]).None? {
              assert cs[i] == cs[1..][i - 1];
            }
          }
        }
      }
      rest
  }

  /** Child `n` provides a value for position `k` of field `f`. */
  predicate Supplies(n: Node, f: Field, k: nat) {
    n.Element? && FieldOf(n.name) == f && ElementText(n).Some? && k < |Split(ElementText(n).value, ' ')|
  }

  /** The last child that provides position `k` of field `f`: later children overwrite earlier ones. */
  function LastSupplier(cs: seq<Node>, f: Field, k: nat): (r: Option<Node>)
    ensures r.Some? ==> Supplies(r.value, f, k)
  {
    if cs == [] then None
    else if Supplies(cs[|cs| - 1], f, k) then Some(cs[|cs| - 1])
    else LastSupplier(cs[..|cs| - 1], f, k)
  }

  /** The text of the last child for field `f` that has text. */
  function LastText(cs: seq<Node>, f: Field): Option<string> {
    match LastSupplier(cs, f, 0)
    case None => None
    case Some(n) => FieldText(n)
  }

  function U32Value(cs: seq<Node>, f: Field): U32 {
    match LastText(cs, f)
    case None => 0
    case Some(t) => ParseU32(t).GetOr(0)
  }

  function FloatValue(cs: seq<Node>, f: Field): Float {
    match LastText(cs, f)
    case None => Zero
    case Some(t) => Parsed(t)
  }

  /** Coordinate `k` of the corner: number `k` of the last `TopLeftCorner` that has that many. */
  function CornerValue(cs: seq<Node>, k: nat): Float {
    match LastSupplier(cs, TopLeftCorner, k)
    case None => Zero
    case Some(n) => Parsed(Split(FieldText(n).value, ' ')[k])
  }

  /**
   * A reference reading of the children `cs`, field by field: the first
   * abort, or else every field at the value of the last child that
   * supplies it, and at its default when none does.
   */
  function LastWins(cs: seq<Node>): Result<TileMatrix, MatrixError> {
    match FirstError(cs)
    case Some(e) => Failure(e)
    case None => Success(LastFields(cs))
  }

  /** Every field at the value of its last supplier, or at its default. */
  function LastFields(cs: seq<Node>): TileMatrix {
    TileMatrix(
      LastText(cs, Identifier).GetOr(""),
      FloatValue(cs, ScaleDenominator),
      (CornerValue(cs, 0), CornerValue(cs, 1)),
      U32Value(cs, TileWidth),
      U32Value(cs, TileHeight),
      U32Value(cs, MatrixWidth),
      U32Value(cs, MatrixHeight))
  }

  /** The change that one abort-free child makes to the fields read so far. */
  function ReadChild(m: TileMatrix, n: Node): TileMatrix
    requires ChildError(n).None?
  {
    match FieldText(n)
    case None => m
    case Some(t) =>
      match FieldOf(n.name)
      case Identifier => m.(identifier := t)
      case ScaleDenominator => m.(scaleDenominator := Parsed(t))
      case TileWidth => m.(tileWidth := ParseU32(t).value)
      case TileHeight => m.(tileHeight := ParseU32(t).value)
      case MatrixWidth => m.(matrixWidth := ParseU32(t).value)
      case MatrixHeight => m.(matrixHeight := ParseU32(t).value)
      case TopLeftCorner =>
        var fs := ParseFloats(Split(t, ' ')).value;
        m.(topLeftCorner := (fs[0], if |fs| > 1 then fs[1] else m.topLeftCorner.1))
      case Unknown => m
  }

  /**
   * What reading the children `cs` of a `TileMatrix` element yields, one
   * child at a time from the defaults: the abort of the first child that
   * aborts, or the fields as the last child leaves them.
   */
  function MatrixOf(cs: seq<Node>): Result<TileMatrix, MatrixError> {
    if cs == [] then Success(DEFAULT_MATRIX)
    else
      match MatrixOf(cs[..|cs| - 1])
      case Failure(e) => Failure(e)
      case Success(m) =>
        match ChildError(cs[|cs| - 1])
        case Some(e) => Failure(e)
        case None => Success(ReadChild(m, cs[|cs| - 1]))
  }

  lemma LastSupplierSnoc(cs: seq<Node>, n: Node, f: Field, k: nat)
    ensures LastSupplier(cs + [n], f, k) == if Supplies(n, f, k) then Some(n) else LastSupplier(cs, f, k)
  {
    assert (cs + [n])[..|cs|] == cs;
  }

  /** Appending an abort-free child changes the reference reading exactly as reading that child does. */
  lemma LastWinsSnoc(cs: seq<Node>, n: Node)
    requires LastWins(cs).Success? && ChildError(n).None?
    ensures LastWins(cs + [n]) == Success(ReadChild(LastWins(cs).value, n))
  {
    FirstErrorConcat(cs, [n]);
    assert FirstError([n]).None?;
    if n.Element? && ElementText(n).Some? && FieldOf(n.name) == TopLeftCorner {
      LastFieldsSnocCorner(cs, n);
    } else {
      LastFieldsSnoc(cs, n);
    }
  }

  lemma LastFieldsSnoc(cs: seq<Node>, n: Node)
    requires ChildError(n).None?
    requires !(n.Element? && ElementText(n).Some? && FieldOf(n.name) == TopLeftCorner)
    ensures LastFields(cs + [n]) == ReadChild(LastFields(cs), n)
  {
    LastTextSnoc(cs, n, Identifier);
    LastTextSnoc(cs, n, ScaleDenominator);
    LastTextSnoc(cs, n, TileWidth);
    LastTextSnoc(cs, n, TileHeight);
    LastTextSnoc(cs, n, MatrixWidth);
    LastTextSnoc(cs, n, MatrixHeight);
    CornerValueSnoc(cs, n, 0);
    CornerValueSnoc(cs, n, 1);
    var m := LastFields(cs);
    if n.Element? && ElementText(n).Some? {
      var t := ElementText(n).value;
      match FieldOf(n.name)
      case Identifier => assert ReadChild(m, n) == m.(identifier := t);
      case ScaleDenominator => assert ReadChild(m, n) == m.(scaleDenominator := Parsed(t));
      case TileWidth => assert ReadChild(m, n) == m.(tileWidth := ParseU32(t).value);
      case TileHeight => assert ReadChild(m, n) == m.(tileHeight := ParseU32(t).value);
      case MatrixWidth => assert ReadChild(m, n) == m.(matrixWidth := ParseU32(t).value);
      case MatrixHeight => assert ReadChild(m, n) == m.(matrixHeight := ParseU32(t).value);
      case Unknown => assert ReadChild(m, n) == m;
    } else {
      assert ReadChild(m, n) == m;
    }
  }

  lemma LastFieldsSnocCorner(cs: seq<Node>, n: Node)
    requires ChildError(n).None?
    requires n.Element? && ElementText(n).Some? && FieldOf(n.name) == TopLeftCorner
    ensures LastFields(cs + [n]) == ReadChild(LastFields(cs), n)
  {
    LastTextSnoc(cs, n, Identifier);
    LastTextSnoc(cs, n, ScaleDenominator);
    LastTextSnoc(cs, n, TileWidth);
    LastTextSnoc(cs, n, TileHeight);
    LastTextSnoc(cs, n, MatrixWidth);
    LastTextSnoc(cs, n, MatrixHeight);
    CornerValueSnoc(cs, n, 0);
    CornerValueSnoc(cs, n, 1);
    var parts := Split(ElementText(n).value, ' ');
    ReadCorner(LastFields(cs), n);
    assert Supplies(n, TopLeftCorner, 0);
    assert Supplies(n, TopLeftCorner, 1) <==> |parts| > 1;
  }

  /** A `TopLeftCorner` child that does not abort sets the corner from its one or two numbers. */
  lemma ReadCorner(m: TileMatrix, n: Node)
    requires ChildError(n).None?
    requires n.Element? && ElementText(n).Some? && FieldOf(n.name) == TopLeftCorner
    ensures var parts := Split(ElementText(n).value, ' ');
            |parts| <= 2 &&
            ReadChild(m, n) == m.(topLeftCorner := (Parsed(parts[0]), if |parts| > 1 then Parsed(parts[1]) else m.topLeftCorner.1))
  {
  }

  lemma LastTextSnoc(cs: seq<Node>, n: Node, f: Field)
    ensures LastText(cs + [n], f) ==
            if n.Element? && FieldOf(n.name) == f && ElementText(n).Some? then ElementText(n) else LastText(cs, f)
  {
    LastSupplierSnoc(cs, n, f, 0);
  }

  lemma CornerValueSnoc(cs: seq<Node>, n: Node, k: nat)
    ensures CornerValue(cs + [n], k) ==
            if Supplies(n, TopLeftCorner, k) then Parsed(Split(ElementText(n).value, ' ')[k]) else CornerValue(cs, k)
  {
    LastSupplierSnoc(cs, n, TopLeftCorner, k);
  }

  /** Once a prefix of the children aborts, reading the rest changes nothing. */
  lemma {:induction false} AbortedPrefix(cs: seq<Node>, i: nat)
    requires i <= |cs| && MatrixOf(cs[..i]).Failure?
    ensures MatrixOf(cs) == MatrixOf(cs[..i])
    decreases |cs| - i
  {
    if i < |cs| {
      assert cs[..i + 1][..i] == cs[..i];
      AbortedPrefix(cs, i + 1);
    } else {
      assert cs[..i] == cs;
    }
  }

  /** Child `i` aborts after a clean prefix: that abort is the result. */
  lemma AbortStep(cs: seq<Node>, i: nat)
    requires i < |cs| && MatrixOf(cs[..i]).Success? && ChildError(cs[i]).Some?
    ensures MatrixOf(cs) == Failure(ChildError(cs[i]).value)
  {
    assert cs[..i + 1][..i] == cs[..i];
    AbortedPrefix(cs, i + 1);
  }

  /** Child `i` reads cleanly after a clean prefix: the result so far takes its value. */
  lemma ReadStep(cs: seq<Node>, i: nat, read: TileMatrix)
    requires i < |cs| && MatrixOf(cs[..i]) == Success(read) && ChildError(cs[i]).None?
    ensures MatrixOf(cs[..i + 1]) == Success(ReadChild(read, cs[i]))
  {
    assert cs[..i + 1][..i] == cs[..i];
  }

  /**
   * The positional copy of the parsed corner numbers into the two-element
   * corner array; a third number indexes past its end.
   */
  method StoreCorner(corner: (Float, Float), fs: seq<Float>) returns (r: Result<(Float, Float), MatrixError>)
    ensures |fs| > 2 <==> r == Failure(CornerIndexOutOfBounds(|fs|))
    ensures |fs| <= 2 ==> r == Success((if |fs| > 0 then fs[0] else corner.0, if |fs| > 1 then fs[1] else corner.1))
  {
    var topLeftCorner := corner;
    var k := 0;
    while k < |fs|
      invariant 0 <= k <= |fs| && k <= 2
      invariant topLeftCorner.0 == if k > 0 then fs[0] else corner.0
      invariant topLeftCorner.1 == if k > 1 then fs[1] else corner.1
    {
      if k >= 2 {
        return Failure(CornerIndexOutOfBounds(|fs|));
      }
      if k == 0 {
        topLeftCorner := (fs[0], topLeftCorner.1);
      } else {
        topLeftCorner := (topLeftCorner.0, fs[1]);
      }
      k := k + 1;
    }
    return Success(topLeftCorner);
  }

  /**
   * `TileMatrix::from_node`: start every field at its default, then read
   * the children in order. Non-elements and elements without text are
   * skipped, unknown names are ignored, and a recognised name overwrites
   * its field.
   */
  method FromNode(node: Node) returns (r: Result<TileMatrix, MatrixError>)
    ensures r == MatrixOf(Children(node))
  {
    var cs := Children(node);
    var identifier := "";
    var scaleDenominator := Zero;
    var topLeftCorner := (Zero, Zero);
    var tileWidth: U32 := 0;
    var tileHeight: U32 := 0;
    var matrixWidth: U32 := 0;
    var matrixHeight: U32 := 0;
    var i := 0;
    while i < |cs|
      invariant 0 <= i <= |cs|
      invariant MatrixOf(cs[..i]) == Success(TileMatrix(identifier, scaleDenominator, topLeftCorner,
                                                         tileWidth, tileHeight, matrixWidth, matrixHeight))
    {
      var child := cs[i];
      ghost var read := TileMatrix(identifier, scaleDenominator, topLeftCorner,
                                   tileWidth, tileHeight, matrixWidth, matrixHeight);
      if child.Element? && ElementText(child).Some? {
        var text := ElementText(child).value;
        match FieldOf(child.name)
        case Identifier =>
          identifier := text;
        case ScaleDenominator =>
          if !IsF64Literal(text) {
            AbortStep(cs, i);
            return Failure(InvalidNumber(child.name, text));
          }
          scaleDenominator := Parsed(text);
        case TileWidth =>
          var value := ParseU32(text);
          if value.None? {
            AbortStep(cs, i);
            return Failure(InvalidNumber(child.name, text));
          }
          tileWidth := value.value;
        case TileHeight =>
          var value := ParseU32(text);
          if value.None? {
            AbortStep(cs, i);
            return Failure(InvalidNumber(child.name, text));
          }
          tileHeight := value.value;
        case MatrixWidth =>
          var value := ParseU32(text);
          if value.None? {
            AbortStep(cs, i);
            return Failure(InvalidNumber(child.name, text));
          }
          matrixWidth := value.value;
        case MatrixHeight =>
          var value := ParseU32(text);
          if value.None? {
            AbortStep(cs, i);
            return Failure(InvalidNumber(child.name, text));
          }
          matrixHeight := value.value;
        case TopLeftCorner =>
          var floats := ParseFloats(Split(text, ' '));
          if floats.Failure? {
            AbortStep(cs, i);
            return Failure(floats.error);
          }
          var corner := StoreCorner(topLeftCorner, floats.value);
          if corner.Failure? {
            AbortStep(cs, i);
            return Failure(corner.error);
          }
          topLeftCorner := corner.value;
        case Unknown =>
        // Any other name: the program prints "Unexpected node name!" and goes on.
      }
      ReadStep(cs, i, read);
      i := i + 1;
    }
    assert cs[..i] == cs;
    r := Success(TileMatrix(identifier, scaleDenominator, topLeftCorner,
                            tileWidth, tileHeight, matrixWidth, matrixHeight));
  }

  // ---------------------------------------------------------------------
  // What reading the children promises.

  /** An element with no readable children is the all-defaults matrix. */
  lemma {:induction false} NoChildrenGiveDefaults(cs: seq<Node>)
    requires forall j :: 0 <= j < |cs| ==> FieldText(cs[j]).None?
    ensures MatrixOf(cs) == Success(DEFAULT_MATRIX)
    decreases |cs|
  {
    if cs != [] {
      NoChildrenGiveDefaults(cs[..|cs| - 1]);
    }
  }

  lemma {:induction false} FirstErrorConcat(a: seq<Node>, b: seq<Node>)
    ensures FirstError(a + b) == if FirstError(a).Some? then FirstError(a) else FirstError(b)
    decreases |a|
  {
    if a == [] {
      assert a + b == b;
    } else {
      assert (a + b)[0] == a[0];
      assert (a + b)[1..] == a[1..] + b;
      FirstErrorConcat(a[1..], b);
    }
  }

  lemma {:induction false} LastSupplierConcat(a: seq<Node>, b: seq<Node>, f: Field, k: nat)
    ensures LastSupplier(a + b, f, k) ==
            if LastSupplier(b, f, k).Some? then LastSupplier(b, f, k) else LastSupplier(a, f, k)
    decreases |b|
  {
    if b == [] {
      assert a + b == a;
    } else {
      assert (a + b)[|a + b| - 1] == b[|b| - 1];
      assert (a + b)[..|a + b| - 1] == a + b[..|b| - 1];
      LastSupplierConcat(a, b[..|b| - 1], f, k);
    }
  }

  /**
   * The two readings agree: reading the children one at a time gives the
   * first abort, or every field as its last supplier sets it.
   */
  lemma {:induction false} MatrixOfIsLastWins(cs: seq<Node>)
    ensures MatrixOf(cs) == LastWins(cs)
    decreases |cs|
  {
    if cs != [] {
      var prefix, last := cs[..|cs| - 1], cs[|cs| - 1];
      assert cs == prefix + [last];
      MatrixOfIsLastWins(prefix);
      FirstErrorConcat(prefix, [last]);
      if LastWins(prefix).Success? && ChildError(last).None? {
        LastWinsSnoc(prefix, last);
      }
    }
  }

  /** The positions the result is read from: one per field, two for the corner. */
  predicate Queried(f: Field, k: nat) {
    f != Unknown && (k == 0 || (f == TopLeftCorner && k == 1))
  }

  /** Two child lists that agree on the last supplier of every position read. */
  ghost predicate SameSuppliers(x: seq<Node>, y: seq<Node>) {
    forall f: Field, k: nat :: Queried(f, k) ==> LastSupplier(x, f, k) == LastSupplier(y, f, k)
  }

  lemma SameSuppliersSameMatrix(x: seq<Node>, y: seq<Node>)
    requires SameSuppliers(x, y) && FirstError(x) == FirstError(y)
    ensures MatrixOf(x) == MatrixOf(y)
  {
    SameSuppliersSameReading(x, y);
    MatrixOfIsLastWins(x);
    MatrixOfIsLastWins(y);
  }

  lemma SameSuppliersSameReading(x: seq<Node>, y: seq<Node>)
    requires SameSuppliers(x, y) && FirstError(x) == FirstError(y)
    ensures LastWins(x) == LastWins(y)
  {
    assert LastSupplier(x, Identifier, 0) == LastSupplier(y, Identifier, 0);
    assert LastSupplier(x, ScaleDenominator, 0) == LastSupplier(y, ScaleDenominator, 0);
    assert LastSupplier(x, TopLeftCorner, 0) == LastSupplier(y, TopLeftCorner, 0);
    assert LastSupplier(x, TopLeftCorner, 1) == LastSupplier(y, TopLeftCorner, 1);
    assert LastSupplier(x, TileWidth, 0) == LastSupplier(y, TileWidth, 0);
    assert LastSupplier(x, TileHeight, 0) == LastSupplier(y, TileHeight, 0);
    assert LastSupplier(x, MatrixWidth, 0) == LastSupplier(y, MatrixWidth, 0);
    assert LastSupplier(x, MatrixHeight, 0) == LastSupplier(y, MatrixHeight, 0);
  }

  /**
   * Last occurrence wins: an abort-free child whose every contribution is
   * provided again by a later child makes no difference to the result.
   */
  lemma OverriddenChild(a: seq<Node>, n: Node, b: seq<Node>)
    requires ChildError(n).None?
    requires forall f: Field, k: nat :: Queried(f, k) && Supplies(n, f, k) ==> LastSupplier(b, f, k).Some?
    ensures MatrixOf(a + [n] + b) == MatrixOf(a + b)
  {
    FirstErrorConcat(a, [n]);
    FirstErrorConcat(a + [n], b);
    FirstErrorConcat(a, b);
    assert FirstError([n]).None?;
    forall f: Field, k: nat | Queried(f, k)
      ensures LastSupplier(a + [n] + b, f, k) == LastSupplier(a + b, f, k)
    {
      LastSupplierConcat(a + [n], b, f, k);
      LastSupplierConcat(a, b, f, k);
      LastSupplierSnoc(a, n, f, k);
    }
    SameSuppliersSameMatrix(a + [n] + b, a + b);
  }

  /** The child reads nothing: not an element, no text, or a name the reader does not know. */
  predicate Ignored(n: Node) {
    !n.Element? || ElementText(n).None? || FieldOf(n.name) == Unknown
  }

  /** Comments, text, textless elements and unknown names can be dropped anywhere. */
  lemma IgnoredChild(a: seq<Node>, n: Node, b: seq<Node>)
    requires Ignored(n)
    ensures MatrixOf(a + [n] + b) == MatrixOf(a + b)
  {
    OverriddenChild(a, n, b);
  }

  /** A later `Identifier` with text replaces every earlier one. */
  lemma LaterIdentifierWins(a: seq<Node>, n: Node, b: seq<Node>, m: Node, c: seq<Node>)
    requires n.Element? && m.Element? && FieldOf(n.name) == Identifier && FieldOf(m.name) == Identifier
    requires ElementText(m).Some?
    ensures MatrixOf(a + [n] + b + [m] + c) == MatrixOf(a + b + [m] + c)
  {
    assert a + [n] + b + [m] + c == a + [n] + (b + [m] + c);
    assert a + b + [m] + c == a + (b + [m] + c);
    forall f: Field, k: nat | Queried(f, k) && Supplies(n, f, k)
      ensures LastSupplier(b + [m] + c, f, k).Some?
    {
      LastSupplierConcat(b + [m], c, f, k);
      LastSupplierSnoc(b, m, f, k);
    }
    OverriddenChild(a, n, b + [m] + c);
  }

  /**
   * Children with different tag names can be read in either order: when
   * both read cleanly, swapping them leaves the result unchanged.
   */
  lemma SwapDistinctChildren(a: seq<Node>, n: Node, m: Node, b: seq<Node>)
    requires TagName(n) != TagName(m)
    requires ChildError(n).None? && ChildError(m).None?
    ensures MatrixOf(a + [n, m] + b) == MatrixOf(a + [m, n] + b)
  {
    SwapKeepsFirstError(a, n, m, b);
    forall f: Field, k: nat | Queried(f, k)
      ensures LastSupplier(a + [n, m] + b, f, k) == LastSupplier(a + [m, n] + b, f, k)
    {
      SwapKeepsSupplier(a, n, m, b, f, k);
    }
    SameSuppliersSameMatrix(a + [n, m] + b, a + [m, n] + b);
  }

  lemma SwapKeepsFirstError(a: seq<Node>, n: Node, m: Node, b: seq<Node>)
    requires ChildError(n).None? && ChildError(m).None?
    ensures FirstError(a + [n, m] + b) == FirstError(a + [m, n] + b)
  {
    FirstErrorConcat(a, [n, m]);
    FirstErrorConcat(a, [m, n]);
    FirstErrorConcat(a + [n, m], b);
    FirstErrorConcat(a + [m, n], b);
    assert FirstError([n, m]).None? && FirstError([m, n]).None?;
  }

  lemma SwapKeepsSupplier(a: seq<Node>, n: Node, m: Node, b: seq<Node>, f: Field, k: nat)
    requires TagName(n) != TagName(m) && f != Unknown
    ensures LastSupplier(a + [n, m] + b, f, k) == LastSupplier(a + [m, n] + b, f, k)
  {
    LastSupplierConcat(a + [n, m], b, f, k);
    LastSupplierConcat(a + [m, n], b, f, k);
    assert a + [n, m] == a + [n] + [m];
    assert a + [m, n] == a + [m] + [n];
    LastSupplierSnoc(a + [n], m, f, k);
    LastSupplierSnoc(a, n, f, k);
    LastSupplierSnoc(a + [m], n, f, k);
    LastSupplierSnoc(a, m, f, k);
    KnownFieldsHaveOneName(n, m, f, k);
  }

  /** Two children with different tag names never supply the same known field. */
  lemma KnownFieldsHaveOneName(n: Node, m: Node, f: Field, k: nat)
    requires TagName(n) != TagName(m) && f != Unknown
    ensures !(Supplies(n, f, k) && Supplies(m, f, k))
  {
  }
}
