/** What `parse_lp_var` makes of the names `Arc::to_string` produces: the
    rendering as written is rejected, the corrected rendering parses back to
    the arc it came from. */
module RoundTrip {

  import opened Outcomes
  import opened Text
  import opened Values
  import opened ParseLp

  /** A field that holds none of the three delimiters of a y-variable name. */
  predicate Plain(p: string)
  {
    forall k :: 0 <= k < |p| ==> p[k] != '|' && p[k] != ',' && p[k] != ')'
  }

  /** Every field of a list is plain. */
  predicate AllPlain(pieces: seq<string>)
  {
    forall j :: 0 <= j < |pieces| ==> Plain(pieces[j])
  }

  lemma OccursAtSplit(s: string, x: string, y: string, pos: int)
    requires OccursAt(s, x + y, pos)
    ensures OccursAt(s, x, pos) && OccursAt(s, y, pos + |x|)
  {
    assert forall k :: 0 <= k < |x| ==> s[pos + k] == (x + y)[k] == x[k];
    assert forall k :: 0 <= k < |y| ==> s[pos + |x| + k] == (x + y)[|x| + k] == y[k];
  }

  lemma OccursInMiddle(x: string, y: string, z: string)
    ensures OccursAt(x + y + z, y, |x|)
  {
    assert forall k :: 0 <= k < |y| ==> (x + y + z)[|x| + k] == y[k];
  }

  /** A field followed by a delimiter it does not contain: the search for
      the delimiter stops right after the field, and the piece cut out up to
      there is the field. */
  lemma PieceAt(s: string, p: string, pos: nat, c: char)
    requires OccursAt(s, p + [c], pos)
    requires forall k :: 0 <= k < |p| ==> p[k] != c
    ensures FindChar(s, c, pos) == pos + |p|
    ensures Piece(s, pos, pos + |p|) == p
  {
    assert s[pos + |p|] == (p + [c])[|p|] == c;
    forall i | pos <= i < pos + |p|
      ensures s[i] != c
    {
      assert s[pos + (i - pos)] == (p + [c])[i - pos] == p[i - pos];
    }
    FindCharAt(s, c, pos, pos + |p|);
    var r := Piece(s, pos, pos + |p|);
    forall k | 0 <= k < |p|
      ensures r[k] == p[k]
    {
      assert r[k] == s[pos + k] == (p + [c])[k];
    }
  }

  /** The fields from `i` on stand in `s` from `pos`: each but the last
      followed by a `|`, the last by `stop`. */
  predicate LaidOut(s: string, pieces: seq<string>, i: nat, pos: nat, stop: char)
    requires i < |pieces|
    decreases |pieces| - i
  {
    if i == |pieces| - 1 then OccursAt(s, pieces[i] + [stop], pos)
    else OccursAt(s, pieces[i] + ['|'], pos) && LaidOut(s, pieces, i + 1, pos + |pieces[i]| + 1, stop)
  }

  /** The fields joined by `|` and closed by `stop` are laid out field by
      field. */
  lemma {:induction false} LaidOutJoin(s: string, pieces: seq<string>, i: nat, pos: nat, stop: char)
    requires i < |pieces|
    requires OccursAt(s, JoinFrom(pieces, '|', i) + [stop], pos)
    ensures LaidOut(s, pieces, i, pos, stop)
    decreases |pieces| - i
  {
    if i < |pieces| - 1 {
      var p := pieces[i];
      var rest := JoinFrom(pieces, '|', i + 1);
      assert JoinFrom(pieces, '|', i) + [stop] == (p + ['|']) + (rest + [stop]);
      OccursAtSplit(s, p + ['|'], rest + [stop], pos);
      LaidOutJoin(s, pieces, i + 1, pos + |p| + 1, stop);
    }
  }

  /** One `|`-round over a plain field followed by `|` pushes that field and
      steps past the `|`. */
  lemma PipeStep(s: string, pos: nat, p: string, n: nat)
    requires pos <= |s| && n > 0 && Plain(p)
    requires OccursAt(s, p + ['|'], pos)
    ensures pos + |p| + 1 <= |s|
    ensures PipePieces(s, pos, n) == [p] + PipePieces(s, pos + |p| + 1, n - 1)
    ensures Cursor(s, pos, n) == Cursor(s, pos + |p| + 1, n - 1)
  {
    PieceAt(s, p, pos, '|');
  }

  /** The `|`-rounds over the fields from `i` on push exactly those fields
      but the last and leave the cursor on the last one. */
  lemma {:induction false} PipePiecesJoin(s: string, pos: nat, pieces: seq<string>, i: nat, stop: char)
    requires i < |pieces| && pos <= |s| && AllPlain(pieces)
    requires LaidOut(s, pieces, i, pos, stop)
    ensures PipePieces(s, pos, |pieces| - 1 - i) == pieces[i..|pieces| - 1]
    ensures OccursAt(s, pieces[|pieces| - 1] + [stop], Cursor(s, pos, |pieces| - 1 - i))
    decreases |pieces| - i
  {
    if i == |pieces| - 1 {
      assert pieces[i..|pieces| - 1] == [];
    } else {
      var p := pieces[i];
      assert Plain(p);
      PipeStep(s, pos, p, |pieces| - 1 - i);
      PipePiecesJoin(s, pos + |p| + 1, pieces, i + 1, stop);
      assert pieces[i..|pieces| - 1] == [p] + pieces[i + 1..|pieces| - 1];
    }
  }

  /** Over seven plain fields joined by `|` and closed by `stop`, the six
      `|`-rounds push the first six and leave the cursor on the seventh. */
  lemma NodeRoundsJoin(s: string, pos: nat, pieces: seq<string>, stop: char)
    requires |pieces| == 7 && pos <= |s| && AllPlain(pieces)
    requires OccursAt(s, Join(pieces, '|') + [stop], pos)
    ensures PipePieces(s, pos, PipeRounds) == pieces[..6]
    ensures OccursAt(s, pieces[6] + [stop], Cursor(s, pos, PipeRounds))
  {
    assert JoinFrom(pieces, '|', 0) == Join(pieces, '|');
    LaidOutJoin(s, pieces, 0, pos, stop);
    PipePiecesJoin(s, pos, pieces, 0, stop);
  }

  /** Seven plain fields joined by `|` and closed by `stop` split back into
      those seven fields. */
  lemma NodePiecesJoin(s: string, pos: nat, pieces: seq<string>, stop: char)
    requires |pieces| == 7 && pos <= |s| && AllPlain(pieces)
    requires stop == ',' || stop == ')'
    requires OccursAt(s, Join(pieces, '|') + [stop], pos)
    ensures NodePieces(s, pos, stop) == pieces
  {
    NodeRoundsJoin(s, pos, pieces, stop);
    var c := Cursor(s, pos, PipeRounds);
    assert Plain(pieces[6]);
    PieceAt(s, pieces[6], c, stop);
    assert pieces[..6] + [pieces[6]] == pieces;
  }

  /** Joining plain fields with `|` introduces no `,` and no `)`. */
  lemma {:induction false} JoinFromPlain(pieces: seq<string>, i: nat)
    requires i <= |pieces| && AllPlain(pieces)
    ensures forall k :: 0 <= k < |JoinFrom(pieces, '|', i)| ==>
              JoinFrom(pieces, '|', i)[k] != ',' && JoinFrom(pieces, '|', i)[k] != ')'
    decreases |pieces| - i
  {
    if i < |pieces| {
      assert Plain(pieces[i]);
      if i < |pieces| - 1 {
        JoinFromPlain(pieces, i + 1);
      }
    }
  }

  /** Where the searches of `parse_lp_var` land in a name built from plain
      fields: the prefix at 0, the node delimiter right after the source
      fields, and each node's fields closed by its stop character. */
  lemma VarNameLayout(src: seq<string>, tgt: seq<string>)
    requires AllPlain(src)
    ensures var s := VarName(src, tgt);
            var j1 := Join(src, '|');
            FindSub(s, "y(", 0) == 0 && FindChar(s, ',', 0) == 2 + |j1| &&
            OccursAt(s, j1 + [','], 2) && OccursAt(s, Join(tgt, '|') + [')'], 2 + |j1| + 1)
  {
    var s := VarName(src, tgt);
    var j1 := Join(src, '|');
    var j2 := Join(tgt, '|');
    assert s == "y(" + (j1 + [',']) + (j2 + [')']);
    assert OccursAt(s, "y(", 0);
    assert FindSub(s, "y(", 0) == 0;
    JoinFromPlain(src, 0);
    forall i | 0 <= i < 2 + |j1|
      ensures s[i] != ','
    {
      if i >= 2 {
        assert s[i] == j1[i - 2];
      }
    }
    assert s[2 + |j1|] == ',';
    FindCharAt(s, ',', 0, 2 + |j1|);
    OccursInMiddle("y(", j1 + [','], j2 + [')']);
    assert s == ("y(" + (j1 + [','])) + (j2 + [')']) + "";
    OccursInMiddle("y(" + (j1 + [',']), j2 + [')'], "");
  }

  /** The searches of `parse_lp_var` find the source fields of a name built
      from plain fields right after `y(`, the target fields right after the
      `,` that closes them. */
  lemma LocateVarName(src: seq<string>, tgt: seq<string>)
    requires AllPlain(src)
    ensures LocateNodes(VarName(src, tgt)) == Nodes(2, 2 + |Join(src, '|')| + 1)
  {
    VarNameLayout(src, tgt);
  }

  /** The source node of a name built from plain fields is cut back into
      its fields. */
  lemma SourceFields(src: seq<string>, tgt: seq<string>)
    requires |src| == 7 && AllPlain(src)
    ensures NodePieces(VarName(src, tgt), 2, ',') == src
  {
    VarNameLayout(src, tgt);
    NodePiecesJoin(VarName(src, tgt), 2, src, ',');
  }

  /** ... and so is its target node. */
  lemma TargetFields(src: seq<string>, tgt: seq<string>)
    requires |tgt| == 7 && AllPlain(src) && AllPlain(tgt)
    ensures NodePieces(VarName(src, tgt), 2 + |Join(src, '|')| + 1, ')') == tgt
  {
    VarNameLayout(src, tgt);
    NodePiecesJoin(VarName(src, tgt), 2 + |Join(src, '|')| + 1, tgt, ')');
  }

  /** A y-variable name built from plain fields is cut back into exactly
      those fields, which are then converted. */
  lemma ParseVarName(src: seq<string>, tgt: seq<string>)
    requires |src| == 7 && |tgt| == 7 && AllPlain(src) && AllPlain(tgt)
    ensures ParseLpVarSpec(VarName(src, tgt)) == Convert(VarName(src, tgt), src, tgt)
  {
    LocateVarName(src, tgt);
    SourceFields(src, tgt);
    TargetFields(src, tgt);
  }

  /** Seven fields that each read as the matching field of `n` convert to `n`. */
  lemma ParseIndicesFields(pieces: seq<string>, n: Node)
    requires |pieces| == 7
    requires Stoi(pieces[0]) == Some(n.laufbahngruppe) && Stoi(pieces[1]) == Some(n.laufbahn)
    requires ParseNegx(pieces[2]) == Ok(n.dienstgrad) && ParseNegx(pieces[3]) == Ok(n.zeitscheibe)
    requires Stoi(pieces[4]) == Some(n.status) && Stoi(pieces[6]) == Some(n.netzwerk)
    requires ParseBool(pieces[5]) == Ok(n.ausbildung)
    ensures ParseIndices(pieces) == Fields(n)
  {
  }

  /** Seven fields whose bool field is no literal convert to an abort there,
      when the fields before it read. */
  lemma ParseIndicesBoolAbort(pieces: seq<string>, n: Node)
    requires |pieces| == 7
    requires Stoi(pieces[0]) == Some(n.laufbahngruppe) && Stoi(pieces[1]) == Some(n.laufbahn)
    requires ParseNegx(pieces[2]) == Ok(n.dienstgrad) && ParseNegx(pieces[3]) == Ok(n.zeitscheibe)
    requires Stoi(pieces[4]) == Some(n.status)
    requires pieces[5] != "false" && pieces[5] != "true"
    ensures ParseIndices(pieces) == FieldAbort(pieces[5])
  {
  }

  /** Rendered integers are plain. */
  lemma IntFieldPlain(n: int)
    ensures Plain(IntToString(n))
  {
    IntToStringChars(n);
  }

  /** Both renderings of a node consist of plain fields. */
  lemma NodeFieldsPlain(n: Node)
    ensures AllPlain(NodeFieldStrings(n)) && AllPlain(NodeFieldWords(n))
  {
    IntFieldPlain(n.laufbahngruppe);
    IntFieldPlain(n.laufbahn);
    IntFieldPlain(n.dienstgrad);
    IntFieldPlain(n.zeitscheibe);
    IntFieldPlain(n.status);
    IntFieldPlain(n.netzwerk);
  }

  /** The integer fields of a rendered node read back as themselves. */
  lemma IntFieldsParse(n: Node)
    ensures Stoi(IntToString(n.laufbahngruppe)) == Some(n.laufbahngruppe)
    ensures Stoi(IntToString(n.laufbahn)) == Some(n.laufbahn)
    ensures ParseNegx(IntToString(n.dienstgrad)) == Ok(n.dienstgrad)
    ensures ParseNegx(IntToString(n.zeitscheibe)) == Ok(n.zeitscheibe)
    ensures Stoi(IntToString(n.status)) == Some(n.status)
    ensures Stoi(IntToString(n.netzwerk)) == Some(n.netzwerk)
  {
    StoiIntToString(n.laufbahngruppe);
    StoiIntToString(n.laufbahn);
    ParseNegxPlain(n.dienstgrad);
    ParseNegxPlain(n.zeitscheibe);
    StoiIntToString(n.status);
    StoiIntToString(n.netzwerk);
  }

  /** `parse_indices` inverts the corrected field rendering. */
  lemma ParseFieldWords(n: Node)
    ensures ParseIndices(NodeFieldWords(n)) == Fields(n)
  {
    var fs := NodeFieldWords(n);
    assert fs[0] == IntToString(n.laufbahngruppe) && fs[1] == IntToString(n.laufbahn);
    assert fs[2] == IntToString(n.dienstgrad) && fs[3] == IntToString(n.zeitscheibe);
    assert fs[4] == IntToString(n.status) && fs[6] == IntToString(n.netzwerk);
    assert fs[5] == BoolLiteral(n.ausbildung);
    IntFieldsParse(n);
    ParseIndicesFields(fs, n);
  }

  /** `parse_indices` rejects the field rendering as written, at the bool. */
  lemma ParseFieldStringsAborts(n: Node)
    ensures ParseIndices(NodeFieldStrings(n)) == FieldAbort(BoolToString(n.ausbildung))
  {
    var fs := NodeFieldStrings(n);
    assert fs[0] == IntToString(n.laufbahngruppe) && fs[1] == IntToString(n.laufbahn);
    assert fs[2] == IntToString(n.dienstgrad) && fs[3] == IntToString(n.zeitscheibe);
    assert fs[4] == IntToString(n.status);
    assert fs[5] == BoolToString(n.ausbildung);
    IntFieldsParse(n);
    ParseIndicesBoolAbort(fs, n);
  }

  /** The name `Arc::to_string` produces, as written, makes `parse_lp_var`
      abort at the source node's bool field ("0" or "1"). */
  lemma ArcToStringRejected(a: Arc)
    ensures ParseLpVarSpec(ArcToString(a)) == Malformed(BoolToString(a.source.ausbildung))
  {
    NodeFieldsPlain(a.source);
    NodeFieldsPlain(a.target);
    ParseVarName(NodeFieldStrings(a.source), NodeFieldStrings(a.target));
    ParseFieldStringsAborts(a.source);
  }

  /** The corrected rendering round-trips: the name parses back to the arc. */
  lemma ArcToStringCorrectedRoundTrip(a: Arc)
    ensures ParseLpVarSpec(ArcToStringCorrected(a)) == Parsed(a)
  {
    NodeFieldsPlain(a.source);
    NodeFieldsPlain(a.target);
    ParseVarName(NodeFieldWords(a.source), NodeFieldWords(a.target));
    ParseFieldWords(a.source);
    ParseFieldWords(a.target);
  }
}
