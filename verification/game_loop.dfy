/** `GL.Game`: the loop driver. It owns a timer, the stages keyed by id (in
    the order they were registered, the order `for (key in stages)` visits
    string keys), the flat registry `pieces` every stage `add` feeds, and the
    `piece.stage` links, kept here as a map from piece id to stage id. One
    call of `tick` is one step: the rescheduling through `setTimeout` is the
    returned delay, and the clock is the parameter `now`. */
module GameLoop {
  import opened Maybe
  import opened Pieces
  import opened Stages
  import FrameTimer

  /** `fps` used when the configuration gives none (or 0). */
  const DefaultFps := 30

  datatype Game = Game(
    timer: FrameTimer.Timer,
    paused: bool,
    stageOrder: seq<StageId>,
    stages: map<StageId, Stage>,
    pieces: seq<Piece>,
    stageOf: map<PieceId, StageId>)

  /** The shape every reachable game has: the timer's interval matches its
      rate, the registration order lists each registered stage once, and
      each stage sits under its own id. */
  ghost predicate Valid(g: Game) {
    && FrameTimer.Valid(g.timer)
    && (forall i, j :: 0 <= i < j < |g.stageOrder| ==> g.stageOrder[i] != g.stageOrder[j])
    && (forall k :: k in g.stageOrder <==> k in g.stages)
    && (forall k :: k in g.stages ==> g.stages[k].id == k)
  }

  /** What one `tick` did: the game afterwards, the `p.tick(coeff)` calls in
      the order they were made, and the delay handed to `setTimeout`
      (none when the tick returned early). */
  datatype TickResult = TickResult(game: Game, calls: seq<TickCall>, delay: Option<real>)

  /** One call `influence.affect.call(other_piece, piece)`. */
  datatype AffectCall = AffectCall(source: Piece, influence: Influence)

  /** `new GL.Game(config)` at time `now`, with `fps` the configured rate. */
  function NewGame(fps: Option<int>, now: int): (g: Game)
    ensures Valid(g)
    ensures g.paused && g.timer.paused
    ensures g.timer.idealFps == (if fps == None || fps == Some(0) then DefaultFps else fps.value)
    ensures g.timer == FrameTimer.NewTimer(g.timer.idealFps, now)
    ensures g.timer.count == 0 && g.timer.coefficient == FrameTimer.Neutral && g.timer.lastTime == now
    ensures g.stageOrder == [] && g.stages == map[] && g.pieces == [] && g.stageOf == map[]
  {
    var rate := if fps == None || fps == Some(0) then DefaultFps else fps.value;
    Game(FrameTimer.NewTimer(rate, now), true, [], map[], [], map[])
  }

  /** `_ensure_stage(id)`: an unknown id gets a new, empty stage registered
      under it; a known id leaves the game as it is. */
  function EnsureStage(g: Game, id: StageId): (r: Game)
    ensures Valid(g) ==> Valid(r)
    ensures id in r.stages && r.stages[id].id == (if id in g.stages then g.stages[id].id else id)
    ensures id in g.stages ==> r == g
    ensures id !in g.stages ==>
      && r.stages == g.stages[id := Stage(id, [])]
      && r.stageOrder == g.stageOrder + [id]
    ensures r.timer == g.timer && r.paused == g.paused
    ensures r.pieces == g.pieces && r.stageOf == g.stageOf
  {
    if id in g.stages then g
    else g.(stageOrder := g.stageOrder + [id], stages := g.stages[id := Stage(id, [])])
  }

  /** `stage.add(piece)` on the stage registered under `id`: the piece's
      `stage` link is set, the piece is appended to the stage and to the
      game's registry, and nothing else changes. */
  function AddToStage(g: Game, id: StageId, p: Piece): (r: Game)
    requires id in g.stages
    ensures Valid(g) ==> Valid(r)
    ensures r.stages.Keys == g.stages.Keys && r.stageOrder == g.stageOrder
    ensures r.stages[id] == Stages.Add(g.stages[id], p)
    ensures forall k :: k in g.stages && k != id ==> r.stages[k] == g.stages[k]
    ensures r.pieces == g.pieces + [p]
    ensures r.stageOf == g.stageOf[p.id := id]
    ensures r.timer == g.timer && r.paused == g.paused
  {
    g.(stages := g.stages[id := Stages.Add(g.stages[id], p)],
       pieces := g.pieces + [p],
       stageOf := g.stageOf[p.id := id])
  }

  /** `game.stage(id, piece)`. */
  function StagePiece(g: Game, id: StageId, p: Piece): (r: Game)
    ensures Valid(g) ==> Valid(r)
    ensures id in r.stages
    ensures r.pieces == g.pieces + [p]
    ensures r.stageOf == g.stageOf[p.id := id]
    ensures id in g.stages ==> r.stageOrder == g.stageOrder && r.stages[id].pieces == g.stages[id].pieces + [p]
    ensures id !in g.stages ==> r.stageOrder == g.stageOrder + [id] && r.stages[id].pieces == [p]
    ensures forall k :: k in g.stages && k != id ==> k in r.stages && r.stages[k] == g.stages[k]
    ensures r.stages.Keys == g.stages.Keys + {id}
    ensures r.timer == g.timer && r.paused == g.paused
  {
    AddToStage(EnsureStage(g, id), id, p)
  }

  /** `stage.remove(o)` on the stage registered under `id`. The game's
      registry and the `stage` links are not touched. */
  function RemoveFromStage(g: Game, id: StageId, o: Piece): (r: Game)
    requires id in g.stages
    ensures Valid(g) ==> Valid(r)
    ensures r.stages == g.stages[id := Stages.Remove(g.stages[id], o)]
    ensures r.pieces == g.pieces && r.stageOf == g.stageOf && r.stageOrder == g.stageOrder
    ensures r.timer == g.timer && r.paused == g.paused
  {
    g.(stages := g.stages[id := Stages.Remove(g.stages[id], o)])
  }

  /** The piece ids of the stages listed in `order`, stage after stage. */
  function Roster(order: seq<StageId>, stages: map<StageId, Stage>): seq<PieceId>
    requires forall k :: k in order ==> k in stages
    decreases |order|
  {
    if |order| == 0 then [] else Ids(stages[order[0]].pieces) + Roster(order[1..], stages)
  }

  /** The `for (key in stages)` loop of `tick`: each stage's `tick(coeff)`
      in registration order. */
  function TickStages(order: seq<StageId>, stages: map<StageId, Stage>, coefficient: FrameTimer.Hundredths): (r: seq<TickCall>)
    requires forall k :: k in order ==> k in stages
    ensures |r| == |Roster(order, stages)|
    ensures forall i :: 0 <= i < |r| ==> r[i] == TickCall(Roster(order, stages)[i], coefficient)
    decreases |order|
  {
    if |order| == 0 then []
    else Stages.Tick(stages[order[0]], coefficient) + TickStages(order[1..], stages, coefficient)
  }

  /** `tick()` at time `now`. A paused game returns at once. Otherwise every
      piece of every stage is ticked, in registration order, with the
      coefficient the timer holds before this tick's `process`; then the
      timer processes `now` and the next tick is scheduled after `interval`. */
  function Tick(g: Game, now: int): (r: TickResult)
    requires Valid(g)
    ensures g.paused ==> r == TickResult(g, [], None)
    ensures !g.paused ==>
      && r.game == g.(timer := FrameTimer.Process(g.timer, now))
      && |r.calls| == |Roster(g.stageOrder, g.stages)|
      && (forall i :: 0 <= i < |r.calls| ==>
            r.calls[i] == TickCall(Roster(g.stageOrder, g.stages)[i], g.timer.coefficient))
      && r.delay == Some(g.timer.interval)
    ensures Valid(r.game)
  {
    if g.paused then TickResult(g, [], None)
    else
      var calls := TickStages(g.stageOrder, g.stages, g.timer.coefficient);
      var g' := g.(timer := FrameTimer.Process(g.timer, now));
      TickResult(g', calls, Some(g'.timer.interval))
  }

  /** `start()`: clear the flag and tick at once. */
  function Start(g: Game, now: int): (r: TickResult)
    requires Valid(g)
    ensures !r.game.paused && Valid(r.game)
    ensures r.game == g.(paused := false, timer := FrameTimer.Process(g.timer, now))
    ensures |r.calls| == |Roster(g.stageOrder, g.stages)|
    ensures forall i :: 0 <= i < |r.calls| ==>
      r.calls[i] == TickCall(Roster(g.stageOrder, g.stages)[i], g.timer.coefficient)
    ensures r.delay == Some(g.timer.interval)
  {
    Tick(g.(paused := false), now)
  }

  /** `pause()`: the game and its timer are flagged; nothing is reset yet. */
  function Pause(g: Game): (r: Game)
    ensures Valid(g) ==> Valid(r)
    ensures r.paused && r.timer.paused
    ensures r.timer == FrameTimer.Pause(g.timer)
    ensures r.timer.coefficient == g.timer.coefficient && r.timer.count == g.timer.count
    ensures r.timer.totalCoefficient == g.timer.totalCoefficient && r.timer.lastTime == g.timer.lastTime
    ensures r.stages == g.stages && r.pieces == g.pieces && r.stageOrder == g.stageOrder
    ensures r.stageOf == g.stageOf
  {
    g.(paused := true, timer := FrameTimer.Pause(g.timer))
  }

  /** Whether `influence` reaches its `affect`: there is no `detect`, or
      `detect` answers true. `detect(inf, other, piece)` stands for
      `inf.detect.call(other, piece)`. */
  predicate Fires(inf: Influence, other: Piece, piece: Piece, detect: (Influence, Piece, Piece) -> bool) {
    !inf.hasDetect || detect(inf, other, piece)
  }

  /** The inner `forEach` of `influence`: `other`'s rules, in order. */
  function AffectsOf(other: Piece, infs: seq<Influence>, piece: Piece, detect: (Influence, Piece, Piece) -> bool): (r: seq<AffectCall>)
    ensures |r| <= |infs|
    ensures forall k :: 0 <= k < |r| ==>
      r[k].source == other && r[k].influence in infs && Fires(r[k].influence, other, piece, detect)
    decreases |infs|
  {
    if |infs| == 0 then []
    else
      (if Fires(infs[0], other, piece, detect) then [AffectCall(other, infs[0])] else [])
      + AffectsOf(other, infs[1..], piece, detect)
  }

  /** The outer `forEach` of `influence` over a registry. */
  function InfluencePass(ps: seq<Piece>, piece: Piece, detect: (Influence, Piece, Piece) -> bool): (r: seq<AffectCall>)
    ensures forall k :: 0 <= k < |r| ==>
      && r[k].source in ps
      && r[k].source.id != piece.id
      && r[k].influence in r[k].source.influences
      && Fires(r[k].influence, r[k].source, piece, detect)
    decreases |ps|
  {
    if |ps| == 0 then []
    else
      (if ps[0].id == piece.id then [] else AffectsOf(ps[0], ps[0].influences, piece, detect))
      + InfluencePass(ps[1..], piece, detect)
  }

  /** `game.influence(piece)`: the `affect` calls the other registered
      pieces' rules make on `piece`, in registry order. */
  function InfluenceOn(g: Game, piece: Piece, detect: (Influence, Piece, Piece) -> bool): (r: seq<AffectCall>)
    ensures forall k :: 0 <= k < |r| ==> r[k].source.id != piece.id && r[k].source in g.pieces
  {
    InfluencePass(g.pieces, piece, detect)
  }

  // ---- lemmas ----

  lemma {:induction false} AffectsOfMembership(other: Piece, infs: seq<Influence>, piece: Piece,
                                               detect: (Influence, Piece, Piece) -> bool, a: AffectCall)
    ensures a in AffectsOf(other, infs, piece, detect) <==>
      a.source == other && a.influence in infs && Fires(a.influence, other, piece, detect)
    decreases |infs|
  {
    if |infs| > 0 {
      AffectsOfMembership(other, infs[1..], piece, detect, a);
      assert infs == [infs[0]] + infs[1..];
    }
  }

  /** An `affect` call happens exactly for a registered piece other than
      `piece` (by id), one of its rules, and a `detect` that is absent or
      answers true. */
  lemma {:induction false} InfluenceMembership(ps: seq<Piece>, piece: Piece,
                                               detect: (Influence, Piece, Piece) -> bool, a: AffectCall)
    ensures a in InfluencePass(ps, piece, detect) <==>
      && a.source in ps
      && a.source.id != piece.id
      && a.influence in a.source.influences
      && Fires(a.influence, a.source, piece, detect)
    decreases |ps|
  {
    if |ps| > 0 {
      InfluenceMembership(ps[1..], piece, detect, a);
      AffectsOfMembership(ps[0], ps[0].influences, piece, detect, a);
      assert ps == [ps[0]] + ps[1..];
    }
  }

  /** The pass runs through the registry in order: the calls due to an
      earlier block of pieces all come before those due to a later block. */
  lemma {:induction false} InfluenceInOrder(a: seq<Piece>, b: seq<Piece>, piece: Piece,
                                            detect: (Influence, Piece, Piece) -> bool)
    ensures InfluencePass(a + b, piece, detect) == InfluencePass(a, piece, detect) + InfluencePass(b, piece, detect)
    decreases |a|
  {
    if |a| > 0 {
      var head := if a[0].id == piece.id then [] else AffectsOf(a[0], a[0].influences, piece, detect);
      assert (a + b)[0] == a[0] && (a + b)[1..] == a[1..] + b;
      assert InfluencePass(a + b, piece, detect) == head + InfluencePass(a[1..] + b, piece, detect);
      assert InfluencePass(a, piece, detect) == head + InfluencePass(a[1..], piece, detect);
      InfluenceInOrder(a[1..], b, piece, detect);
    } else {
      assert a + b == b;
    }
  }

  /** The inner loop runs through `other`'s rules in order: the calls due to
      an earlier block of rules all come before those due to a later block,
      whether or not the rules carry a `detect`. */
  lemma {:induction false} AffectsOfAppend(other: Piece, a: seq<Influence>, b: seq<Influence>, piece: Piece,
                                           detect: (Influence, Piece, Piece) -> bool)
    ensures AffectsOf(other, a + b, piece, detect) == AffectsOf(other, a, piece, detect) + AffectsOf(other, b, piece, detect)
    decreases |a|
  {
    if |a| > 0 {
      assert (a + b)[1..] == a[1..] + b;
      AffectsOfAppend(other, a[1..], b, piece, detect);
    } else {
      assert a + b == b;
    }
  }

  /** Rules without `detect` always fire, in the order they are listed. */
  lemma {:induction false} RulesWithoutDetectAllFire(other: Piece, infs: seq<Influence>, piece: Piece,
                                                     detect: (Influence, Piece, Piece) -> bool)
    requires forall j :: 0 <= j < |infs| ==> !infs[j].hasDetect
    ensures |AffectsOf(other, infs, piece, detect)| == |infs|
    ensures forall j :: 0 <= j < |infs| ==> AffectsOf(other, infs, piece, detect)[j] == AffectCall(other, infs[j])
    decreases |infs|
  {
    if |infs| > 0 {
      RulesWithoutDetectAllFire(other, infs[1..], piece, detect);
    }
  }

  // ---- the registry and the stages ----

  /** Every piece a stage holds is in the game's registry, counted with
      multiplicity: `add` feeds both, `remove` only shrinks the stage. */
  ghost predicate Registered(g: Game)
    requires Valid(g)
  {
    multiset(Roster(g.stageOrder, g.stages)) <= multiset(Ids(g.pieces))
  }

  lemma {:induction false} RosterFrame(order: seq<StageId>, stages: map<StageId, Stage>, k: StageId, s': Stage)
    requires forall x :: x in order ==> x in stages
    requires k !in order
    ensures Roster(order, stages[k := s']) == Roster(order, stages)
    decreases |order|
  {
    if |order| > 0 {
      RosterFrame(order[1..], stages, k, s');
    }
  }

  lemma {:induction false} RosterAppend(order: seq<StageId>, stages: map<StageId, Stage>, k: StageId)
    requires forall x :: x in order ==> x in stages
    requires k in stages
    ensures Roster(order + [k], stages) == Roster(order, stages) + Ids(stages[k].pieces)
    decreases |order|
  {
    if |order| == 0 {
      assert order + [k] == [k];
    } else {
      assert (order + [k])[1..] == order[1..] + [k];
      RosterAppend(order[1..], stages, k);
    }
  }

  /** Replacing the stage under a listed id swaps that stage's pieces in
      the roster and leaves the other stages' pieces as they were. */
  lemma {:induction false} RosterUpdate(order: seq<StageId>, stages: map<StageId, Stage>, k: StageId, s': Stage)
    requires forall x :: x in order ==> x in stages
    requires forall i, j :: 0 <= i < j < |order| ==> order[i] != order[j]
    requires k in order
    ensures multiset(Roster(order, stages[k := s'])) + multiset(Ids(stages[k].pieces))
         == multiset(Roster(order, stages)) + multiset(Ids(s'.pieces))
    decreases |order|
  {
    var st' := stages[k := s'];
    var rest := order[1..];
    assert Roster(order, st') == Ids(st'[order[0]].pieces) + Roster(rest, st');
    assert Roster(order, stages) == Ids(stages[order[0]].pieces) + Roster(rest, stages);
    if order[0] == k {
      assert k !in rest by {
        forall j | 0 <= j < |rest| ensures rest[j] != k {
          assert rest[j] == order[j + 1];
        }
      }
      RosterFrame(rest, stages, k, s');
      assert st'[k] == s';
      MultisetSwap(multiset(Ids(s'.pieces)), multiset(Ids(stages[k].pieces)), multiset(Roster(rest, stages)));
    } else {
      assert k in rest by {
        var i :| 0 <= i < |order| && order[i] == k;
        assert rest[i - 1] == k;
      }
      assert st'[order[0]] == stages[order[0]];
      RosterUpdate(rest, stages, k, s');
      MultisetShift(multiset(Ids(stages[order[0]].pieces)), multiset(Roster(rest, st')), multiset(Roster(rest, stages)),
                    multiset(Ids(stages[k].pieces)), multiset(Ids(s'.pieces)));
    }
  }

  lemma MultisetCancel<T>(x: multiset<T>, y: multiset<T>, b: multiset<T>, e: multiset<T>)
    requires x + b == y + (b + e)
    ensures x == y + e && y <= x && |x| == |y| + |e|
  {
    assert x + b == (y + e) + b;
    forall t ensures x[t] == (y + e)[t] {
      assert (x + b)[t] == ((y + e) + b)[t];
    }
  }

  lemma MultisetSwap<T>(a: multiset<T>, b: multiset<T>, c: multiset<T>)
    ensures (a + c) + b == (b + c) + a
  {
  }

  lemma MultisetShift<T>(h: multiset<T>, r': multiset<T>, r: multiset<T>, b: multiset<T>, a: multiset<T>)
    requires r' + b == r + a
    ensures (h + r') + b == (h + r) + a
  {
    forall t ensures ((h + r') + b)[t] == ((h + r) + a)[t] {
      assert (r' + b)[t] == (r + a)[t];
    }
  }

  /** `_ensure_stage` adds no piece to any stage. */
  lemma EnsureStageRoster(g: Game, id: StageId)
    requires Valid(g)
    ensures Roster(EnsureStage(g, id).stageOrder, EnsureStage(g, id).stages) == Roster(g.stageOrder, g.stages)
  {
    if id !in g.stages {
      var st' := g.stages[id := Stage(id, [])];
      RosterFrame(g.stageOrder, g.stages, id, Stage(id, []));
      RosterAppend(g.stageOrder, st', id);
    }
  }

  /** `add` puts the piece's id once more into the stages and once more
      into the registry. */
  lemma AddToStageRoster(g: Game, id: StageId, p: Piece)
    requires Valid(g) && id in g.stages
    ensures var r := AddToStage(g, id, p);
      && multiset(Roster(r.stageOrder, r.stages)) == multiset(Roster(g.stageOrder, g.stages)) + multiset{p.id}
      && multiset(Ids(r.pieces)) == multiset(Ids(g.pieces)) + multiset{p.id}
  {
    var s := g.stages[id];
    var s' := Stages.Add(s, p);
    RosterUpdate(g.stageOrder, g.stages, id, s');
    IdsAppend(s.pieces, [p]);
    assert Ids([p]) == [p.id];
    assert multiset(Ids(s'.pieces)) == multiset(Ids(s.pieces)) + multiset{p.id};
    IdsAppend(g.pieces, [p]);
    var r := AddToStage(g, id, p);
    assert r.stages == g.stages[id := s'] && r.stageOrder == g.stageOrder;
    MultisetCancel(multiset(Roster(r.stageOrder, r.stages)), multiset(Roster(g.stageOrder, g.stages)),
                   multiset(Ids(s.pieces)), multiset{p.id});
  }

  /** `remove` takes at most one id out of the stages and leaves the
      registry as it was. */
  lemma RemoveFromStageRoster(g: Game, id: StageId, o: Piece)
    requires Valid(g) && id in g.stages
    ensures var r := RemoveFromStage(g, id, o);
      && multiset(Roster(r.stageOrder, r.stages)) <= multiset(Roster(g.stageOrder, g.stages))
      && |Roster(r.stageOrder, r.stages)| + (if |g.stages[id].pieces| > 0 then 1 else 0)
         == |Roster(g.stageOrder, g.stages)|
      && r.pieces == g.pieces
  {
    var s := g.stages[id];
    var s' := Stages.Remove(s, o);
    RosterUpdate(g.stageOrder, g.stages, id, s');
    var before := multiset(Roster(g.stageOrder, g.stages));
    var after := multiset(Roster(g.stageOrder, g.stages[id := s']));
    assert after + multiset(Ids(s.pieces)) == before + multiset(Ids(s'.pieces));
    if |s.pieces| > 0 {
      RemoveShrinksIds(s, o);
      var k := match Find(s, o.id) case Some(f) => f.index case None => 0;
      MultisetCancel(before, after, multiset(Ids(s'.pieces)), multiset{s.pieces[k].id});
    } else {
      assert s' == s;
      MultisetCancel(before, after, multiset(Ids(s'.pieces)), multiset{});
    }
    assert |after| == |Roster(g.stageOrder, g.stages[id := s'])|;
    assert |before| == |Roster(g.stageOrder, g.stages)|;
  }

  lemma RemoveShrinksIds(s: Stage, o: Piece)
    requires |s.pieces| > 0
    ensures var k := match Find(s, o.id) case Some(f) => f.index case None => 0;
      && k < |s.pieces|
      && multiset(Ids(s.pieces)) == multiset(Ids(Stages.Remove(s, o).pieces)) + multiset{s.pieces[k].id}
  {
    var k := match Find(s, o.id) case Some(f) => f.index case None => 0;
    var s' := Stages.Remove(s, o);
    assert s.pieces == s.pieces[..k] + [s.pieces[k]] + s.pieces[k + 1..];
    assert s'.pieces == s.pieces[..k] + s.pieces[k + 1..];
    IdsAppend(s.pieces[..k] + [s.pieces[k]], s.pieces[k + 1..]);
    IdsAppend(s.pieces[..k], [s.pieces[k]]);
    IdsAppend(s.pieces[..k], s.pieces[k + 1..]);
    assert Ids([s.pieces[k]]) == [s.pieces[k].id];
  }

  /** Every operation of the game keeps the stages' pieces within the
      registry; a fresh game satisfies it trivially. */
  lemma RegisteredPreserved(g: Game, id: StageId, p: Piece, now: int, fps: Option<int>)
    requires Valid(g) && Registered(g)
    ensures Registered(NewGame(fps, now))
    ensures Registered(EnsureStage(g, id))
    ensures Registered(StagePiece(g, id, p))
    ensures id in g.stages ==> Registered(AddToStage(g, id, p)) && Registered(RemoveFromStage(g, id, p))
    ensures Registered(Tick(g, now).game) && Registered(Pause(g))
    ensures Registered(Start(g, now).game)
  {
    RegisteredNew(fps, now);
    RegisteredStaging(g, id, p);
    if id in g.stages {
      RegisteredAdd(g, id, p);
      RegisteredRemove(g, id, p);
    }
    RegisteredTiming(g, now);
  }

  lemma RegisteredNew(fps: Option<int>, now: int)
    ensures Registered(NewGame(fps, now))
  {
    assert NewGame(fps, now).stageOrder == [];
  }

  lemma RegisteredAdd(g: Game, id: StageId, p: Piece)
    requires Valid(g) && Registered(g) && id in g.stages
    ensures Registered(AddToStage(g, id, p))
  {
    AddToStageRoster(g, id, p);
  }

  lemma RegisteredRemove(g: Game, id: StageId, o: Piece)
    requires Valid(g) && Registered(g) && id in g.stages
    ensures Registered(RemoveFromStage(g, id, o))
  {
    RemoveFromStageRoster(g, id, o);
  }

  lemma RegisteredStaging(g: Game, id: StageId, p: Piece)
    requires Valid(g) && Registered(g)
    ensures Registered(EnsureStage(g, id))
    ensures Registered(StagePiece(g, id, p))
  {
    EnsureStageRoster(g, id);
    RegisteredAdd(EnsureStage(g, id), id, p);
  }

  lemma RegisteredTiming(g: Game, now: int)
    requires Valid(g) && Registered(g)
    ensures Registered(Tick(g, now).game) && Registered(Pause(g)) && Registered(Start(g, now).game)
  {
    var started := Start(g, now).game;
    assert started.stageOrder == g.stageOrder && started.stages == g.stages && started.pieces == g.pieces;
  }

  // ---- scenarios ----

  /** Two `stage` calls with one id register a single stage holding both
      pieces in call order, and both reach the registry. */
  lemma StageTwiceReusesStage(g: Game, id: StageId, p1: Piece, p2: Piece)
    requires Valid(g)
    ensures var r := StagePiece(StagePiece(g, id, p1), id, p2);
      && Valid(r)
      && r.stages.Keys == g.stages.Keys + {id}
      && r.stageOrder == (if id in g.stages then g.stageOrder else g.stageOrder + [id])
      && r.stages[id].pieces == (if id in g.stages then g.stages[id].pieces else []) + [p1, p2]
      && r.pieces == g.pieces + [p1, p2]
  {
  }

  /** `remove` undoes a stage's `add` but not the registry's: the piece
      stays in `game.pieces` and keeps its `stage` link. */
  lemma AddThenRemoveKeepsRegistry(g: Game, id: StageId, p: Piece)
    requires Valid(g) && id in g.stages
    ensures var r := RemoveFromStage(AddToStage(g, id, p), id, p);
      && r.stages == g.stages
      && r.pieces == g.pieces + [p]
      && r.stageOf == g.stageOf[p.id := id]
  {
    AddThenRemove(g.stages[id], p);
    var r := RemoveFromStage(AddToStage(g, id, p), id, p);
    assert r.stages.Keys == g.stages.Keys;
  }

  /** `pause` only raises flags, so a restart's first tick still hands the
      pieces the coefficient from before the pause; only that tick's
      `process` resets it to 1, without counting a frame. */
  lemma RestartUsesStaleCoefficient(g: Game, now: int)
    requires Valid(g)
    ensures var r := Start(Pause(g), now);
      && (forall i :: 0 <= i < |r.calls| ==> r.calls[i].coefficient == g.timer.coefficient)
      && |r.calls| == |Roster(g.stageOrder, g.stages)|
      && r.game.timer.coefficient == FrameTimer.Neutral
      && r.game.timer.count == g.timer.count
      && r.game.timer.totalCoefficient == g.timer.totalCoefficient
      && r.game.timer.lastTime == now
      && !r.game.paused && !r.game.timer.paused
  {
  }

  /** Starting a game whose timer is paused (a new game, or one after
      `pause`) and ticking it again: the start passes the coefficient the
      timer held, the next tick passes 1.00 to every piece, and only then is
      a first frame measured, from the start's time to the tick's. */
  lemma StartThenTick(g: Game, t0: int, t1: int)
    requires Valid(g) && g.timer.paused
    ensures var r1 := Start(g, t0);
      var r2 := Tick(r1.game, t1);
      && (forall i :: 0 <= i < |r1.calls| ==> r1.calls[i].coefficient == g.timer.coefficient)
      && |r2.calls| == |Roster(g.stageOrder, g.stages)|
      && (forall i :: 0 <= i < |r2.calls| ==> r2.calls[i].coefficient == FrameTimer.Neutral)
      && r2.game.timer.coefficient == FrameTimer.Coefficient(g.timer.idealFps, t1 - t0)
      && r2.game.timer.count == g.timer.count + 1
      && r2.game.timer.totalCoefficient == g.timer.totalCoefficient + r2.game.timer.coefficient
  {
    var r1 := Start(g, t0);
    assert r1.game.stageOrder == g.stageOrder && r1.game.stages == g.stages;
    var r2 := Tick(r1.game, t1);
    FrameTimer.CoefficientIsTheRounding(r2.game.timer.coefficient, g.timer.idealFps, t1 - t0);
  }
}
