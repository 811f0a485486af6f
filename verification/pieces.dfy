/** `GL.Piece`: an id drawn from one shared counter and a list of
    influences. The user-overridable `tick` and `influence` bodies are not
    part of the model; a piece's `tick` appears only as a recorded call. */
module Pieces {

  type PieceId = nat

  /** An influence rule `{detect?, affect}`. Its `detect` and `affect`
      bodies are user code: the model keeps a name and whether a `detect`
      is present, and takes the outcome of `detect` as a parameter. */
  datatype Influence = Influence(name: string, hasDetect: bool)

  datatype Piece = Piece(id: PieceId, influences: seq<Influence>)

  /** The closure state behind `generate_id`: the next id to hand out. */
  datatype IdCounter = IdCounter(next: nat)

  /** The counter as the script creates it. */
  const FreshCounter := IdCounter(0)

  /** `generate_id()`, i.e. `return i++`: the current value, then the
      counter moves on by one. */
  function GenerateId(c: IdCounter): (r: (PieceId, IdCounter))
    ensures r.0 == c.next && r.1.next == r.0 + 1
  {
    (c.next, IdCounter(c.next + 1))
  }

  /** `new GL.Piece()`: no influences and a freshly generated id. */
  function NewPiece(c: IdCounter): (r: (Piece, IdCounter))
    ensures r.0.influences == []
    ensures r.0.id == c.next && r.1.next == c.next + 1
  {
    var (id, c') := GenerateId(c);
    (Piece(id, []), c')
  }

  /** The script's counter starts at 0: the first piece created gets id 0
      and the second id 1, and neither has influences. */
  lemma FirstPieces()
    ensures var (first, c1) := NewPiece(FreshCounter);
      var (second, c2) := NewPiece(c1);
      && first.id == 0 && second.id == 1 && c2.next == 2
      && first.influences == [] && second.influences == []
  {
  }

  /** `n` successive calls of `generate_id`: the ids come out strictly
      increasing, so no two are equal, and all lie between the counter's
      value before and after. */
  method GenerateIds(c: IdCounter, n: nat) returns (ids: seq<PieceId>, c': IdCounter)
    ensures |ids| == n && c'.next == c.next + n
    ensures forall i, j :: 0 <= i < j < |ids| ==> ids[i] < ids[j]
    ensures forall i :: 0 <= i < |ids| ==> c.next <= ids[i] < c'.next
  {
    ids, c' := [], c;
    while |ids| < n
      invariant |ids| <= n && c'.next == c.next + |ids|
      invariant forall i :: 0 <= i < |ids| ==> ids[i] == c.next + i
    {
      var step := GenerateId(c');
      ids, c' := ids + [step.0], step.1;
    }
  }

  /** The ids of a sequence of pieces, in order. */
  function Ids(ps: seq<Piece>): (r: seq<PieceId>)
    ensures |r| == |ps|
    ensures forall i :: 0 <= i < |ps| ==> r[i] == ps[i].id
  {
    seq(|ps|, i requires 0 <= i < |ps| => ps[i].id)
  }

  lemma IdsAppend(a: seq<Piece>, b: seq<Piece>)
    ensures Ids(a + b) == Ids(a) + Ids(b)
  {
  }
}
