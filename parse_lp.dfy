/** The y-variable name codec: `parse_negx`, `parse_bool`, `parse_indices`
    and `parse_lp_var`, which turn `y(f1|...|f7,g1|...|g7)` into an `Arc`. */
module ParseLp {

  import opened Outcomes
  import opened Text
  import opened Values

  /** What `parse_lp_var` can do for a name: report that it is no y-variable
      (an empty optional), return an arc, or abort with a message. */
  datatype ParseResult = NoMatch | Parsed(arc: Arc) | Malformed(context: string)

  /** What converting seven pieces can do: build a node, abort inside
      `parse_negx` / `parse_bool` (with the offending piece), or let a
      `std::stoi` exception escape to the caller. */
  datatype FieldsResult = Fields(node: Node) | FieldAbort(context: string) | StoiThrown

  /** `-x` on a 32-bit `int`; negating INT_MIN wraps to INT_MIN. */
  function Negate32(x: Int32): (r: Int32)
    ensures x != MinInt32 ==> r == -x
  {
    if x == MinInt32 then x else -x
  }

  /** `parse_negx`: the integer after the first `neg`, negated, or the whole
      field's integer when there is no `neg`. */
  function ParseNegx(index: string): (r: Outcome<Int32>)
    ensures r.Abort? ==> r.context == index
    ensures r.Ok? ==> exists i :: 0 <= i < |index| && IsDigit(index[i])
  {
    var p := FindSub(index, "neg", 0);
    FindSubSpec(index, "neg", 0);
    var digits := if p == -1 then index else Substr(index, p + 3, |index|);
    match Stoi(digits)
    case None => Abort(index)
    case Some(v) => Ok(if p == -1 then v else Negate32(v))
  }

  /** A rendered integer contains no `neg`. */
  lemma NoNegInRenderedInt(n: int)
    ensures FindSub(IntToString(n), "neg", 0) == -1
  {
    IntToStringChars(n);
    FindSubAbsent(IntToString(n), "neg", 0);
  }

  /** A plain integer field reads as itself, negative ones included. */
  lemma ParseNegxPlain(n: Int32)
    ensures ParseNegx(IntToString(n)) == Ok(n)
  {
    NoNegInRenderedInt(n);
    StoiIntToString(n);
  }

  /** A field that starts with `neg` reads the integer after it, negated. */
  lemma ParseNegxAfterNeg(d: string)
    ensures ParseNegx("neg" + d) == match Stoi(d)
      case None => Abort("neg" + d)
      case Some(v) => Ok(Negate32(v))
  {
    var s := "neg" + d;
    assert OccursAt(s, "neg", 0);
    assert FindSub(s, "neg", 0) == 0;
    SubstrAfterPrefix("neg", d);
  }

  /** `neg` followed by digits reads as the negated number. */
  lemma ParseNegxPrefixed(n: nat)
    requires n <= MaxInt32
    ensures ParseNegx("neg" + NatToString(n)) == Ok(-(n as int))
  {
    var d := NatToString(n);
    NatToStringValue(n);
    StoiDigits(d);
    ParseNegxAfterNeg(d);
  }

  /** A field without any digit aborts with that field. */
  lemma ParseNegxNoDigit(index: string)
    requires forall i :: 0 <= i < |index| ==> !IsDigit(index[i])
    ensures ParseNegx(index) == Abort(index)
  {
  }

  /** `parse_bool`: exactly the literals `false` and `true`. */
  function ParseBool(index: string): (r: Outcome<bool>)
    ensures r.Ok? <==> index == "false" || index == "true"
    ensures r.Ok? ==> (r.value <==> index == "true")
    ensures r.Abort? ==> r.context == index
  {
    if index == "false" then Ok(false)
    else if index == "true" then Ok(true)
    else Abort(index)
  }

  /** `parse_indices`: piece i becomes field i, in declaration order; the
      braced initialiser evaluates left to right, so the first failing
      conversion decides the outcome. */
  function ParseIndices(pieces: seq<string>): (r: FieldsResult)
    requires |pieces| == 7
    ensures r.Fields? ==> Stoi(pieces[0]) == Some(r.node.laufbahngruppe)
    ensures r.Fields? ==> Stoi(pieces[1]) == Some(r.node.laufbahn)
    ensures r.Fields? ==> ParseNegx(pieces[2]) == Ok(r.node.dienstgrad)
    ensures r.Fields? ==> ParseNegx(pieces[3]) == Ok(r.node.zeitscheibe)
    ensures r.Fields? ==> Stoi(pieces[4]) == Some(r.node.status)
    ensures r.Fields? ==> ParseBool(pieces[5]) == Ok(r.node.ausbildung)
    ensures r.Fields? ==> Stoi(pieces[6]) == Some(r.node.netzwerk)
    ensures r.FieldAbort? ==> r.context == pieces[2] || r.context == pieces[3] || r.context == pieces[5]
  {
    match Stoi(pieces[0])
    case None => StoiThrown
    case Some(f0) =>
      match Stoi(pieces[1])
      case None => StoiThrown
      case Some(f1) =>
        match ParseNegx(pieces[2])
        case Abort(c) => FieldAbort(c)
        case Ok(f2) =>
          match ParseNegx(pieces[3])
          case Abort(c) => FieldAbort(c)
          case Ok(f3) =>
            match Stoi(pieces[4])
            case None => StoiThrown
            case Some(f4) =>
              match ParseBool(pieces[5])
              case Abort(c) => FieldAbort(c)
              case Ok(f5) =>
                match Stoi(pieces[6])
                case None => StoiThrown
                case Some(f6) => Fields(Node(f0, f1, f2, f3, f4, f5, f6))
  }

  // ---------------------------------------------------------------------------
  // The cursor walk of parse_lp_var

  /** `var_name.substr(pos, next - pos)`, where `next` is an `int` that may be
      -1 (npos): a negative count turns into a huge `size_t`, i.e. the rest. */
  function Piece(s: string, pos: nat, next: int): (r: string)
    requires pos <= |s|
    requires next == -1 || pos <= next <= |s|
  {
    Substr(s, pos, if next == -1 then |s| else next)
  }

  /** Where the cursor stands after `n` rounds of "find the next `|`, step
      past it".  Stepping past is `next + 1`, so a missing `|` (-1) sends the
      cursor back to 0. */
  function Cursor(s: string, pos: nat, n: nat): (c: nat)
    requires pos <= |s|
    ensures c <= |s|
    decreases n
  {
    if n == 0 then pos
    else
      FindCharRange(s, '|', pos);
      Cursor(s, FindChar(s, '|', pos) + 1, n - 1)
  }

  /** The pieces those `n` rounds push, each cut up to the `|` found. */
  function PipePieces(s: string, pos: nat, n: nat): (r: seq<string>)
    requires pos <= |s|
    ensures |r| == n
    decreases n
  {
    if n == 0 then []
    else
      FindCharRange(s, '|', pos);
      var next := FindChar(s, '|', pos);
      [Piece(s, pos, next)] + PipePieces(s, next + 1, n - 1)
  }

  /** The number of `|`-terminated pieces of a node. */
  const PipeRounds: nat := 6

  /** The seven pieces of one node: six ended by `|`, the last by `stop`. */
  function NodePieces(s: string, pos: nat, stop: char): (r: seq<string>)
    requires pos <= |s|
    ensures |r| == 7
  {
    var c := Cursor(s, pos, PipeRounds);
    FindCharRange(s, stop, c);
    PipePieces(s, pos, PipeRounds) + [Piece(s, c, FindChar(s, stop, c))]
  }

  /** How `parse_lp_var` turns the two piece lists into its result: a
      `std::stoi` failure reaches the catch and aborts with the full name;
      `parse_negx` and `parse_bool` abort on their own with the piece. */
  function Convert(name: string, src: seq<string>, tgt: seq<string>): (r: ParseResult)
    requires |src| == 7 && |tgt| == 7
    ensures r.Parsed? ==> ParseIndices(src) == Fields(r.arc.source) && ParseIndices(tgt) == Fields(r.arc.target)
    ensures !r.NoMatch?
  {
    match ParseIndices(src)
    case StoiThrown => Malformed(name)
    case FieldAbort(c) => Malformed(c)
    case Fields(a) =>
      match ParseIndices(tgt)
      case StoiThrown => Malformed(name)
      case FieldAbort(c) => Malformed(c)
      case Fields(b) => Parsed(Arc(a, b))
  }

  /** What the searches of `parse_lp_var` make of a name: no prefix, a
      prefix but no node delimiter, or where the two nodes' fields start. */
  datatype Layout = NotLpVar | NoNodeDelimiter | Nodes(sourceAt: nat, targetAt: nat)

  /** The source node starts after the first `y(` and the target node after
      the first `,` of the whole name. */
  function LocateNodes(name: string): (r: Layout)
    ensures r.Nodes? ==> r.sourceAt <= |name| && r.targetAt <= |name|
  {
    FindSubRange(name, "y(", 0);
    var ys := FindSub(name, "y(", 0);
    if ys == -1 then NotLpVar
    else
      FindCharRange(name, ',', 0);
      var comma := FindChar(name, ',', 0);
      if comma == -1 then NoNodeDelimiter
      else Nodes(ys + 2, comma + 1)
  }

  /** The result `parse_lp_var` computes, as a function of the name: both
      nodes are cut into their seven pieces and converted. */
  function ParseLpVarSpec(name: string): (r: ParseResult)
  {
    match LocateNodes(name)
    case NotLpVar => NoMatch
    case NoNodeDelimiter => Malformed(name)
    case Nodes(a, b) => Convert(name, NodePieces(name, a, ','), NodePieces(name, b, ')'))
  }

  /** A name is a y-variable exactly when it contains the prefix `y(`; one
      that has the prefix but no `,` anywhere aborts with the whole name. */
  lemma ParseLpVarCases(name: string)
    ensures ParseLpVarSpec(name).NoMatch? <==> !Contains(name, "y(")
    ensures Contains(name, "y(") && (forall i :: 0 <= i < |name| ==> name[i] != ',') ==>
              ParseLpVarSpec(name) == Malformed(name)
  {
    FindSubFromStart(name, "y(");
    FindCharSpec(name, ',', 0);
  }

  /** One cursor step of `parse_lp_var`: push the piece up to `next` (the
      `|` found last), step past it, and search for `stop` from there. */
  method TakePiece(name: string, indices: seq<string>, pos: nat, next: int, stop: char, ghost n: nat)
    returns (indices': seq<string>, pos': nat, next': int)
    requires pos <= |name| && next == FindChar(name, '|', pos) && n > 0
    ensures pos' <= |name| && next' == FindChar(name, stop, pos')
    ensures indices' + PipePieces(name, pos', n - 1) == indices + PipePieces(name, pos, n)
    ensures Cursor(name, pos', n - 1) == Cursor(name, pos, n)
  {
    FindCharRange(name, '|', pos);
    indices' := indices + [Piece(name, pos, next)];
    pos' := next + 1;
    next' := FindChar(name, stop, pos');
  }

  /** One node's cursor in the "double fence post" of `parse_lp_var`: five
      rounds that push a piece and step past a `|`, a sixth that pushes a
      piece and then looks for `stop` (`,` or `)`) instead, and the last
      piece. */
  method SplitNode(name: string, start: nat, stop: char) returns (indices: seq<string>)
    requires start <= |name|
    ensures indices == NodePieces(name, start, stop)
  {
    var pos: nat := start;
    ghost var pieces := PipePieces(name, start, PipeRounds);
    ghost var last := Cursor(name, start, PipeRounds);
    indices := [];
    var next := FindChar(name, '|', pos);
    ghost var left: nat := PipeRounds;
    for i := 0 to 5
      invariant left == PipeRounds - i
      invariant pos <= |name| && next == FindChar(name, '|', pos)
      invariant indices + PipePieces(name, pos, left) == pieces
      invariant Cursor(name, pos, left) == last
    {
      indices, pos, next := TakePiece(name, indices, pos, next, '|', left);
      left := left - 1;
    }
    indices, pos, next := TakePiece(name, indices, pos, next, stop, left);
    assert indices == pieces;
    FindCharRange(name, stop, pos);
    indices := indices + [Piece(name, pos, next)];
  }

  /** `parse_lp_var`: find the prefix and the node delimiter, walk both
      nodes' cursors, then convert both piece lists. */
  method ParseLpVar(name: string) returns (r: ParseResult)
    ensures r == ParseLpVarSpec(name)
  {
    var ys := FindSub(name, "y(", 0);
    if ys == -1 {
      return NoMatch;
    }
    FindSubRange(name, "y(", 0);
    var posSource: nat := ys + 2;
    var comma := FindChar(name, ',', 0);
    if comma == -1 {
      return Malformed(name);
    }
    FindCharRange(name, ',', 0);
    var posTarget: nat := comma + 1;
    assert LocateNodes(name) == Nodes(posSource, posTarget);
    var indicesSource := SplitNode(name, posSource, ',');
    var indicesTarget := SplitNode(name, posTarget, ')');
    r := Convert(name, indicesSource, indicesTarget);
  }
}
