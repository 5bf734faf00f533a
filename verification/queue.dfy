/**
 * The dispatch queue `taxi/line` ("41|42|43") and the position map built
 * from it (painel/index.php, `$line_list` and `$linePos`).
 */
module Queue {
  import opened Text

  /** PHP truthiness of a string, which array_filter() keeps: not "" and not "0". */
  predicate Truthy(s: string)
  {
    s != "" && s != "0"
  }

  /** array_values(array_filter($xs)): the truthy strings, in order, reindexed. */
  function KeepTruthy(xs: seq<string>): (r: seq<string>)
    ensures |r| <= |xs|
    ensures forall i :: 0 <= i < |r| ==> Truthy(r[i])
    ensures forall x :: x in r <==> x in xs && Truthy(x)
  {
    if |xs| == 0 then []
    else
      var rest := KeepTruthy(xs[1..]);
      assert forall x :: x in xs <==> x == xs[0] || x in xs[1..];
      if Truthy(xs[0]) then [xs[0]] + rest else rest
  }

  /** array_filter() keeps the order: filtering a concatenation concatenates the filtered halves. */
  lemma {:induction false} KeepTruthyConcat(xs: seq<string>, ys: seq<string>)
    ensures KeepTruthy(xs + ys) == KeepTruthy(xs) + KeepTruthy(ys)
    decreases |xs|
  {
    if |xs| == 0 {
      assert xs + ys == ys;
    } else {
      assert (xs + ys)[1..] == xs[1..] + ys;
      KeepTruthyConcat(xs[1..], ys);
    }
  }

  /** Trimming never brings in a character that was not there. */
  lemma TrimKeepsOut(s: string, c: char)
    requires c !in s
    ensures c !in Trim(s)
  {
  }

  /** array_map('trim', $xs). */
  function TrimEach(xs: seq<string>): (r: seq<string>)
    ensures |r| == |xs|
    ensures forall i :: 0 <= i < |xs| ==> r[i] == Trim(xs[i])
  {
    seq(|xs|, i requires 0 <= i < |xs| => Trim(xs[i]))
  }

  /**
   * `$line_list`: the queue value cut at `|`, each piece trimmed, the pieces
   * "" and "0" dropped. The kept pieces are exactly the truthy trimmed
   * pieces, in the order of the value; none is padded or holds a `|`.
   */
  function QueuePieces(line: string): (pieces: seq<string>)
    ensures line == "" ==> pieces == []
    ensures line != "" ==> pieces == KeepTruthy(TrimEach(Split(line, '|')))
    ensures forall i :: 0 <= i < |pieces| ==> Truthy(pieces[i]) && IsTrimmed(pieces[i]) && '|' !in pieces[i]
    ensures forall x :: x in pieces <==> Truthy(x) && x in TrimEach(Split(line, '|'))
  {
    var trimmed := TrimEach(Split(line, '|'));
    if line == "" then
      assert Split(line, '|') == [""];
      []
    else
      var pieces := KeepTruthy(trimmed);
      TrimmedPiecesClean(line, trimmed, pieces);
      pieces
  }

  lemma TrimmedPiecesClean(line: string, trimmed: seq<string>, pieces: seq<string>)
    requires trimmed == TrimEach(Split(line, '|'))
    requires forall x :: x in pieces ==> x in trimmed
    ensures forall i :: 0 <= i < |pieces| ==> IsTrimmed(pieces[i]) && '|' !in pieces[i]
  {
    var raw := Split(line, '|');
    forall j | 0 <= j < |trimmed|
      ensures IsTrimmed(trimmed[j]) && '|' !in trimmed[j]
    {
      TrimKeepsOut(raw[j], '|');
    }
    assert forall i :: 0 <= i < |pieces| ==> pieces[i] in trimmed;
  }

  /** The digits of every piece, `preg_replace('/\D+/', '', $ag)` in the loop. */
  function DigitsOf(pieces: seq<string>): (ids: seq<string>)
    ensures |ids| == |pieces|
    ensures forall i :: 0 <= i < |pieces| ==> ids[i] == StripNonDigits(pieces[i]) && AllDigits(ids[i])
  {
    seq(|pieces|, i requires 0 <= i < |pieces| => StripNonDigits(pieces[i]))
  }

  /**
   * The foreach loop that fills `$linePos`, given the digits of each piece:
   * a non-empty id is mapped to its index, a later index overwriting an
   * earlier one, and an empty id contributes nothing.
   */
  function Positions(ids: seq<string>): (pos: map<string, nat>)
    ensures forall a :: a in pos ==> pos[a] < |ids|
    ensures forall a :: a in pos <==> a != "" && a in ids
    ensures forall a :: a in pos ==> ids[pos[a]] == a
    ensures forall a, j :: a in pos && pos[a] < j < |ids| ==> ids[j] != a
    decreases |ids|
  {
    if |ids| == 0 then map[]
    else
      var last := |ids| - 1;
      var init := ids[..last];
      var pos := Positions(init);
      var x := ids[last];
      var r := if x != "" then pos[x := last] else pos;
      assert ids == init + [x];
      forall a | a in r
        ensures r[a] < |ids| && ids[r[a]] == a
        ensures forall j :: r[a] < j < |ids| ==> ids[j] != a
      {
        if a != x {
          assert r[a] == pos[a];
          assert ids[pos[a]] == init[pos[a]];
        }
      }
      r
  }

  /**
   * `pos` maps the digits of each piece that has some to the index of the
   * last piece with those digits.
   */
  ghost predicate LastIndexOf(pieces: seq<string>, pos: map<string, nat>)
  {
    && (forall a :: a in pos <==> a != "" && exists i :: 0 <= i < |pieces| && StripNonDigits(pieces[i]) == a)
    && (forall a :: a in pos ==> pos[a] < |pieces| && StripNonDigits(pieces[pos[a]]) == a)
    && (forall a, j :: a in pos && pos[a] < j < |pieces| ==> StripNonDigits(pieces[j]) != a)
  }

  /**
   * `$linePos` for a queue value: agent digits to the index of the last
   * kept piece with those digits; every index is below the number of kept
   * pieces, and an empty value queues nobody.
   */
  function QueuePositions(line: string): (pos: map<string, nat>)
    ensures line == "" ==> pos == map[]
    ensures forall a :: a in pos ==> IsDigits(a)
    ensures LastIndexOf(QueuePieces(line), pos)
  {
    var pieces := QueuePieces(line);
    var pos := Positions(DigitsOf(pieces));
    PositionsOfPieces(pieces);
    pos
  }

  /** Positions over the digits of the pieces indexes each agent's last piece. */
  lemma PositionsOfPieces(pieces: seq<string>)
    ensures var pos := Positions(DigitsOf(pieces));
      && (forall a :: a in pos ==> IsDigits(a))
      && LastIndexOf(pieces, pos)
  {
    var ids := DigitsOf(pieces);
    var pos := Positions(ids);
    forall a | a in pos
      ensures IsDigits(a)
    {
      assert ids[pos[a]] == a;
    }
  }

  /** The queue "41|42" puts agent 41 first and agent 42 second. */
  lemma TwoAgentQueue()
    ensures QueuePositions("41|42") == map["41" := 0, "42" := 1]
  {
    assert "41|42" == "41" + ['|'] + "42";
    QueueOfTwo("41", "42");
  }

  /** A queue of two different agents' ids gives each its index. */
  lemma QueueOfTwo(a: string, b: string)
    requires IsDigits(a) && IsDigits(b) && a != b && a != "0" && b != "0"
    ensures QueuePositions(a + ['|'] + b) == map[a := 0, b := 1]
  {
    PiecesOfTwo(a, b);
    DigitsOfDigits([a, b]);
    PositionsOfTwo(a, b);
  }

  /** Pieces that are digits already keep them all. */
  lemma DigitsOfDigits(pieces: seq<string>)
    requires forall i :: 0 <= i < |pieces| ==> AllDigits(pieces[i])
    ensures DigitsOf(pieces) == pieces
  {
  }

  lemma PositionsOfTwo(a: string, b: string)
    requires a != "" && b != "" && a != b
    ensures Positions([a, b]) == map[a := 0, b := 1]
  {
    assert [a, b][..1] == [a] && [a][..0] == [];
  }

  /** Two plain truthy pieces are kept as they are. */
  lemma PiecesOfTwo(a: string, b: string)
    requires Truthy(a) && Truthy(b) && IsTrimmed(a) && IsTrimmed(b) && '|' !in a && '|' !in b
    ensures QueuePieces(a + ['|'] + b) == [a, b]
  {
    SplitTwo(a, b);
    TrimmedIsFixed(a);
    TrimmedIsFixed(b);
    var trimmed := TrimEach([a, b]);
    assert trimmed == [a, b];
    assert [a, b][1..] == [b] && [b][1..] == [];
  }

  lemma SplitTwo(a: string, b: string)
    requires '|' !in a && '|' !in b
    ensures Split(a + ['|'] + b, '|') == [a, b]
  {
    SplitAtFirstDelimiter(a, b, '|');
    SplitWithoutDelimiter(b, '|');
  }
}
