/** `GL.Stage`: a rendering surface's id and its ordered pieces. The canvas
    and drawing context are not modelled. Operations that also touch the
    owning game (`add` pushes onto `game.pieces`) live in `GameLoop`; this
    module holds the container's own part. */
module Stages {
  import opened Maybe
  import opened Pieces
  import FrameTimer

  type StageId = string

  datatype Stage = Stage(id: StageId, pieces: seq<Piece>)

  /** The object `{piece, index}` that `find` returns on a match. */
  datatype Found = Found(piece: Piece, index: nat)

  /** One call `p.tick(coeff)`. */
  datatype TickCall = TickCall(piece: PieceId, coefficient: FrameTimer.Hundredths)

  /** `found` is what `find` holds after visiting `ps[..upTo]`: nothing if
      no visited piece has `id`, otherwise the last visited piece that has. */
  ghost predicate IsLastMatch(ps: seq<Piece>, id: PieceId, upTo: nat, found: Option<Found>)
    requires upTo <= |ps|
  {
    match found
    case None => forall j :: 0 <= j < upTo ==> ps[j].id != id
    case Some(f) =>
      && f.index < upTo
      && ps[f.index] == f.piece
      && f.piece.id == id
      && forall j :: f.index < j < upTo ==> ps[j].id != id
  }

  /** The side of the container that `add` changes: the piece goes at the
      end, with no check for an equal id already present. */
  function Add(s: Stage, p: Piece): (r: Stage)
    ensures r.id == s.id && |r.pieces| == |s.pieces| + 1
    ensures r.pieces[..|s.pieces|] == s.pieces && r.pieces[|s.pieces|] == p
  {
    Stage(s.id, s.pieces + [p])
  }

  /** `find(id)`: the `forEach` visits every piece and its inner `return`
      does not stop the loop, so a later match overwrites an earlier one. */
  function Find(s: Stage, id: PieceId): (r: Option<Found>)
    ensures IsLastMatch(s.pieces, id, |s.pieces|, r)
  {
    FindFrom(s.pieces, id, 0, None)
  }

  /** The `forEach` of `find` from index `i` on, with `found` the value so far. */
  function FindFrom(ps: seq<Piece>, id: PieceId, i: nat, found: Option<Found>): (r: Option<Found>)
    requires i <= |ps| && IsLastMatch(ps, id, i, found)
    ensures IsLastMatch(ps, id, |ps|, r)
    decreases |ps| - i
  {
    if i == |ps| then found
    else FindFrom(ps, id, i + 1, if ps[i].id == id then Some(Found(ps[i], i)) else found)
  }

  /** `Array.prototype.splice(start, 1)` for a start inside or past the end
      of the array: one element goes, or nothing when `start` is past the end. */
  function SpliceOne<T>(xs: seq<T>, start: nat): (r: seq<T>)
    ensures start < |xs| ==> |r| == |xs| - 1
    ensures start >= |xs| ==> r == xs
    ensures forall k :: 0 <= k < start && k < |r| ==> r[k] == xs[k]
    ensures forall k :: start <= k < |r| ==> r[k] == xs[k + 1]
  {
    if start < |xs| then xs[..start] + xs[start + 1..] else xs
  }

  /** `remove(o)`: `splice(found.index, 1)`. When no piece has `o.id`,
      `found` is `false`, its `index` is `undefined`, and `splice` reads
      that start as 0. */
  function Remove(s: Stage, o: Piece): (r: Stage)
    ensures r.id == s.id
    ensures |s.pieces| == 0 ==> r == s
    ensures |s.pieces| > 0 ==> |r.pieces| == |s.pieces| - 1
    ensures Find(s, o.id).Some? ==>
      var k := Find(s, o.id).value.index;
      && s.pieces[k].id == o.id
      && (forall j :: k < j < |s.pieces| ==> s.pieces[j].id != o.id)
      && r.pieces == s.pieces[..k] + s.pieces[k + 1..]
    ensures Find(s, o.id).None? && |s.pieces| > 0 ==>
      && (forall j :: 0 <= j < |s.pieces| ==> s.pieces[j].id != o.id)
      && r.pieces == s.pieces[1..]
  {
    var start := match Find(s, o.id) case Some(f) => f.index case None => 0;
    Stage(s.id, SpliceOne(s.pieces, start))
  }

  /** `tick(coeff)`: every piece's `tick`, in order, with the same coefficient. */
  function Tick(s: Stage, coefficient: FrameTimer.Hundredths): (r: seq<TickCall>)
    ensures |r| == |s.pieces|
    ensures forall i :: 0 <= i < |r| ==> r[i] == TickCall(s.pieces[i].id, coefficient)
  {
    TickAll(s.pieces, coefficient)
  }

  function TickAll(ps: seq<Piece>, coefficient: FrameTimer.Hundredths): (r: seq<TickCall>)
    ensures |r| == |ps|
    ensures forall i :: 0 <= i < |r| ==> r[i] == TickCall(ps[i].id, coefficient)
    decreases |ps|
  {
    if |ps| == 0 then [] else [TickCall(ps[0].id, coefficient)] + TickAll(ps[1..], coefficient)
  }

  // ---- properties ----

  /** `find` right after `add(p)` reports `p` at the last index, even when
      an earlier piece has the same id. */
  lemma FindAfterAdd(s: Stage, p: Piece)
    ensures Find(Add(s, p), p.id) == Some(Found(p, |s.pieces|))
  {
  }

  /** `find` reports nothing exactly when no piece carries the id. */
  lemma FindAbsent(s: Stage, id: PieceId)
    ensures Find(s, id).None? <==> forall j :: 0 <= j < |s.pieces| ==> s.pieces[j].id != id
  {
  }

  /** Removing the piece just added restores the stage, whatever it held. */
  lemma AddThenRemove(s: Stage, p: Piece)
    ensures Remove(Add(s, p), p) == s
  {
    FindAfterAdd(s, p);
    assert (s.pieces + [p])[..|s.pieces|] == s.pieces;
  }

  /** `remove` deletes one element and keeps the rest: the multiset of
      pieces loses exactly the element at the found index, or the first
      element when the id is absent. */
  lemma RemoveDropsOne(s: Stage, o: Piece)
    requires |s.pieces| > 0
    ensures var k := match Find(s, o.id) case Some(f) => f.index case None => 0;
      && k < |s.pieces|
      && multiset(Remove(s, o).pieces) + multiset{s.pieces[k]} == multiset(s.pieces)
  {
    var k := match Find(s, o.id) case Some(f) => f.index case None => 0;
    assert s.pieces == s.pieces[..k] + [s.pieces[k]] + s.pieces[k + 1..];
  }

  /** For an id absent from a non-empty stage, `remove` deletes the first
      piece, which has a different id. */
  lemma RemoveAbsentDropsFirst(s: Stage, o: Piece)
    requires |s.pieces| > 0
    requires forall j :: 0 <= j < |s.pieces| ==> s.pieces[j].id != o.id
    ensures Remove(s, o).pieces == s.pieces[1..]
    ensures s.pieces[0].id != o.id
  {
  }
}
