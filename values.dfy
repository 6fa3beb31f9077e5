/** The value types of the pricing engine: a network vertex key (`Node`), a
    directed edge / y-variable identity (`Arc`), a shortest-path result
    (`Path`) and a pricing-relevant master constraint (`Constraint`). */
module Values {

  import opened Text

  /** Seven attribute fields, in declaration order. */
  datatype Node = Node(
    laufbahngruppe: Int32,
    laufbahn: Int32,
    dienstgrad: Int32,
    zeitscheibe: Int32,
    status: Int32,
    ausbildung: bool,
    netzwerk: Int32)

  datatype Arc = Arc(source: Node, target: Node)

  /** A path result: its total length, its arcs from the sink back to the
      source, and the group of the network it was computed in. */
  datatype Path = Path(length: real, arcs: seq<Arc>, networkGroup: int)

  /** The handle of a master-problem constraint (a `SCIP_CONS *`). */
  type ConsId = nat

  /** A pricing-relevant constraint and the (arc, coefficient) pairs of the
      y-variables it originally contained. */
  datatype Constraint = Constraint(handle: ConsId, arcs: seq<(Arc, real)>)

  // ---------------------------------------------------------------------------
  // Lexicographic comparison, as `std::tie(...) < std::tie(...)` does it

  /** Tuple `<` on the positions from `i` on: decided by the first position
      where one side is smaller. */
  predicate LexLessFrom(xs: seq<int>, ys: seq<int>, i: nat)
    requires |xs| == |ys| && i <= |xs|
    decreases |xs| - i
  {
    i < |xs| && (xs[i] < ys[i] || (!(ys[i] < xs[i]) && LexLessFrom(xs, ys, i + 1)))
  }

  /** Tuple `<`. */
  predicate LexLess(xs: seq<int>, ys: seq<int>)
    requires |xs| == |ys|
  {
    LexLessFrom(xs, ys, 0)
  }

  lemma {:induction false} LexLessFromIrreflexive(xs: seq<int>, i: nat)
    requires i <= |xs|
    ensures !LexLessFrom(xs, xs, i)
    decreases |xs| - i
  {
    if i < |xs| {
      LexLessFromIrreflexive(xs, i + 1);
    }
  }

  lemma LexLessIrreflexive(xs: seq<int>)
    ensures !LexLess(xs, xs)
  {
    LexLessFromIrreflexive(xs, 0);
  }

  lemma {:induction false} LexLessFromTransitive(xs: seq<int>, ys: seq<int>, zs: seq<int>, i: nat)
    requires |xs| == |ys| == |zs| && i <= |xs|
    requires LexLessFrom(xs, ys, i) && LexLessFrom(ys, zs, i)
    ensures LexLessFrom(xs, zs, i)
    decreases |xs| - i
  {
    if xs[i] == ys[i] == zs[i] {
      LexLessFromTransitive(xs, ys, zs, i + 1);
    }
  }

  lemma LexLessTransitive(xs: seq<int>, ys: seq<int>, zs: seq<int>)
    requires |xs| == |ys| == |zs|
    requires LexLess(xs, ys) && LexLess(ys, zs)
    ensures LexLess(xs, zs)
  {
    LexLessFromTransitive(xs, ys, zs, 0);
  }

  lemma {:induction false} LexLessFromTrichotomy(xs: seq<int>, ys: seq<int>, i: nat)
    requires |xs| == |ys| && i <= |xs|
    ensures LexLessFrom(xs, ys, i) || (forall k :: i <= k < |xs| ==> xs[k] == ys[k]) || LexLessFrom(ys, xs, i)
    ensures !(LexLessFrom(xs, ys, i) && LexLessFrom(ys, xs, i))
    decreases |xs| - i
  {
    if i < |xs| {
      LexLessFromTrichotomy(xs, ys, i + 1);
    }
  }

  lemma LexLessTrichotomy(xs: seq<int>, ys: seq<int>)
    requires |xs| == |ys|
    ensures LexLess(xs, ys) || xs == ys || LexLess(ys, xs)
    ensures !(LexLess(xs, ys) && LexLess(ys, xs))
  {
    LexLessFromTrichotomy(xs, ys, 0);
  }

  // ---------------------------------------------------------------------------
  // Node

  /** A `bool` takes part in a tuple comparison as 0 or 1 (false < true). */
  function BoolRank(b: bool): (r: int)
  {
    if b then 1 else 0
  }

  /** The tuple `Node::operator<` compares, field by field in declaration order. */
  function NodeKey(n: Node): (k: seq<int>)
    ensures |k| == 7
  {
    [n.laufbahngruppe, n.laufbahn, n.dienstgrad, n.zeitscheibe, n.status,
     BoolRank(n.ausbildung), n.netzwerk]
  }

  lemma NodeKeyInjective(a: Node, b: Node)
    ensures NodeKey(a) == NodeKey(b) <==> a == b
  {
    if NodeKey(a) == NodeKey(b) {
      assert NodeKey(a)[5] == NodeKey(b)[5];
    }
  }

  /** `Node::operator<`. */
  predicate NodeLess(a: Node, b: Node)
  {
    LexLess(NodeKey(a), NodeKey(b))
  }

  /** `Node::operator==`: the conjunction of the seven field equalities. */
  predicate NodeEq(a: Node, b: Node)
  {
    a.laufbahngruppe == b.laufbahngruppe &&
    a.laufbahn == b.laufbahn &&
    a.dienstgrad == b.dienstgrad &&
    a.zeitscheibe == b.zeitscheibe &&
    a.status == b.status &&
    a.ausbildung == b.ausbildung &&
    a.netzwerk == b.netzwerk
  }

  /** Field-wise equality is value equality, so nodes can be map keys. */
  lemma NodeEqIsEquality(a: Node, b: Node)
    ensures NodeEq(a, b) <==> a == b
  {
  }

  /** Reference reading of the field order: the first field in which the two
      nodes differ decides, and `false` comes before `true`. */
  predicate NodeLessByFields(a: Node, b: Node)
  {
    a.laufbahngruppe < b.laufbahngruppe || (a.laufbahngruppe == b.laufbahngruppe && (
    a.laufbahn < b.laufbahn || (a.laufbahn == b.laufbahn && (
    a.dienstgrad < b.dienstgrad || (a.dienstgrad == b.dienstgrad && (
    a.zeitscheibe < b.zeitscheibe || (a.zeitscheibe == b.zeitscheibe && (
    a.status < b.status || (a.status == b.status && (
    (!a.ausbildung && b.ausbildung) || (a.ausbildung == b.ausbildung && (
    a.netzwerk < b.netzwerk))))))))))))
  }

  /** `Node::operator<` is lexicographic over the seven fields in declaration order. */
  lemma NodeLessLexicographic(a: Node, b: Node)
    ensures NodeLess(a, b) <==> NodeLessByFields(a, b)
  {
    var ka, kb := NodeKey(a), NodeKey(b);
    assert !LexLessFrom(ka, kb, 7);
    assert LexLessFrom(ka, kb, 6) <==> a.netzwerk < b.netzwerk;
    assert LexLessFrom(ka, kb, 5) <==>
      (!a.ausbildung && b.ausbildung) || (a.ausbildung == b.ausbildung && LexLessFrom(ka, kb, 6));
    assert LexLessFrom(ka, kb, 4) <==>
      a.status < b.status || (a.status == b.status && LexLessFrom(ka, kb, 5));
    assert LexLessFrom(ka, kb, 3) <==>
      a.zeitscheibe < b.zeitscheibe || (a.zeitscheibe == b.zeitscheibe && LexLessFrom(ka, kb, 4));
    assert LexLessFrom(ka, kb, 2) <==>
      a.dienstgrad < b.dienstgrad || (a.dienstgrad == b.dienstgrad && LexLessFrom(ka, kb, 3));
    assert LexLessFrom(ka, kb, 1) <==>
      a.laufbahn < b.laufbahn || (a.laufbahn == b.laufbahn && LexLessFrom(ka, kb, 2));
    assert LexLessFrom(ka, kb, 0) <==>
      a.laufbahngruppe < b.laufbahngruppe || (a.laufbahngruppe == b.laufbahngruppe && LexLessFrom(ka, kb, 1));
  }

  lemma NodeLessIrreflexive(a: Node)
    ensures !NodeLess(a, a)
  {
    LexLessIrreflexive(NodeKey(a));
  }

  lemma NodeLessTransitive(a: Node, b: Node, c: Node)
    requires NodeLess(a, b) && NodeLess(b, c)
    ensures NodeLess(a, c)
  {
    LexLessTransitive(NodeKey(a), NodeKey(b), NodeKey(c));
  }

  /** Exactly one of `a < b`, `a == b`, `b < a`. */
  lemma NodeTrichotomy(a: Node, b: Node)
    ensures NodeLess(a, b) || NodeEq(a, b) || NodeLess(b, a)
    ensures !(NodeLess(a, b) && NodeEq(a, b))
    ensures !(NodeLess(b, a) && NodeEq(a, b))
    ensures !(NodeLess(a, b) && NodeLess(b, a))
  {
    LexLessTrichotomy(NodeKey(a), NodeKey(b));
    NodeKeyInjective(a, b);
    LexLessIrreflexive(NodeKey(a));
  }

  // ---------------------------------------------------------------------------
  // Arc

  /** `Arc::operator<`: `std::tie(source, target) < std::tie(rhs.source, rhs.target)`. */
  predicate ArcLess(a: Arc, b: Arc)
  {
    NodeLess(a.source, b.source) || (!NodeLess(b.source, a.source) && NodeLess(a.target, b.target))
  }

  /** `Arc::operator==`. */
  predicate ArcEq(a: Arc, b: Arc)
  {
    NodeEq(a.source, b.source) && NodeEq(a.target, b.target)
  }

  lemma ArcEqIsEquality(a: Arc, b: Arc)
    ensures ArcEq(a, b) <==> a == b
  {
  }

  /** `<` on arcs is lexicographic on (source, target). */
  lemma ArcLessLexicographic(a: Arc, b: Arc)
    ensures ArcLess(a, b) <==> NodeLess(a.source, b.source) || (a.source == b.source && NodeLess(a.target, b.target))
  {
    NodeTrichotomy(a.source, b.source);
  }

  /** `<` on arcs is a strict total order consistent with `==`. */
  lemma ArcStrictTotalOrder(a: Arc, b: Arc, c: Arc)
    ensures !ArcLess(a, a)
    ensures ArcLess(a, b) && ArcLess(b, c) ==> ArcLess(a, c)
    ensures ArcLess(a, b) || ArcEq(a, b) || ArcLess(b, a)
    ensures !(ArcLess(a, b) && ArcEq(a, b)) && !(ArcLess(a, b) && ArcLess(b, a))
  {
    NodeLessIrreflexive(a.source);
    NodeLessIrreflexive(a.target);
    NodeTrichotomy(a.source, b.source);
    NodeTrichotomy(b.source, c.source);
    NodeTrichotomy(a.source, c.source);
    NodeTrichotomy(a.target, b.target);
    if ArcLess(a, b) && ArcLess(b, c) {
      ArcLessLexicographic(a, b);
      ArcLessLexicographic(b, c);
      ArcLessLexicographic(a, c);
      if NodeLess(a.source, b.source) && NodeLess(b.source, c.source) {
        NodeLessTransitive(a.source, b.source, c.source);
      } else if a.source == b.source == c.source {
        NodeLessTransitive(a.target, b.target, c.target);
      }
    }
  }

  // ---------------------------------------------------------------------------
  // Arc::to_string

  /** `std::to_string(bool)`: the bool is promoted to `int`. */
  function BoolToString(b: bool): (r: string)
  {
    if b then "1" else "0"
  }

  /** The seven fields of a node as they are printed, in declaration order. */
  function NodeFieldStrings(n: Node): (fs: seq<string>)
    ensures |fs| == 7
  {
    [IntToString(n.laufbahngruppe), IntToString(n.laufbahn), IntToString(n.dienstgrad),
     IntToString(n.zeitscheibe), IntToString(n.status), BoolToString(n.ausbildung),
     IntToString(n.netzwerk)]
  }

  /** The pieces from index `i` on, joined by a one-character separator. */
  function JoinFrom(pieces: seq<string>, sep: char, i: nat): (r: string)
    requires i <= |pieces|
    decreases |pieces| - i
  {
    if i == |pieces| then ""
    else if i == |pieces| - 1 then pieces[i]
    else pieces[i] + [sep] + JoinFrom(pieces, sep, i + 1)
  }

  /** Pieces joined by a one-character separator. */
  function Join(pieces: seq<string>, sep: char): (r: string)
  {
    JoinFrom(pieces, sep, 0)
  }

  /** The layout of a y-variable name: `y(` source fields `,` target
      fields `)`, the fields of each node joined by `|`. */
  function VarName(src: seq<string>, tgt: seq<string>): (r: string)
  {
    "y(" + Join(src, '|') + "," + Join(tgt, '|') + ")"
  }

  /** `Arc::to_string`, as written: the y-variable layout with `std::to_string`
      applied to every field, the bool included. */
  function ArcToString(a: Arc): (r: string)
  {
    VarName(NodeFieldStrings(a.source), NodeFieldStrings(a.target))
  }

  /** The literal the LP files use for the bool field (`false` / `true`). */
  function BoolLiteral(b: bool): (r: string)
  {
    if b then "true" else "false"
  }

  /** The seven fields of a node with the bool written as a literal. */
  function NodeFieldWords(n: Node): (fs: seq<string>)
    ensures |fs| == 7
  {
    [IntToString(n.laufbahngruppe), IntToString(n.laufbahn), IntToString(n.dienstgrad),
     IntToString(n.zeitscheibe), IntToString(n.status), BoolLiteral(n.ausbildung),
     IntToString(n.netzwerk)]
  }

  /** `Arc::to_string` as it is evidently meant to be: the y-variable name
      of the arc, in the format the LP files use. */
  function ArcToStringCorrected(a: Arc): (r: string)
  {
    VarName(NodeFieldWords(a.source), NodeFieldWords(a.target))
  }
}
