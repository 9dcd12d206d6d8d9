/**
 * `LanternScoreboard`: objectives indexed by name and by criterion, the
 * objective shown in each display slot, and the players who see the board.
 * Each operation returns the new board and the message list it broadcasts
 * to the players (`None` when there are no players: the messages are then
 * not even built).
 */
module Scoreboard {
  import opened Wrappers

  type PlayerId = nat
  type Criterion = nat
  type DisplayMode = nat
  type DisplaySlot = nat

  datatype Score = Score(name: string, value: int)

  datatype Objective = Objective(name: string, criterion: Criterion, displayName: string, displayMode: DisplayMode, scores: seq<Score>)

  datatype Message =
    | ObjectiveCreate(name: string, displayName: string, displayMode: DisplayMode)
    | ScoreCreateOrUpdate(objective: string, score: string, value: int)
    | ObjectiveRemove(name: string)
    | DisplayObjective(shown: Option<string>, slot: DisplaySlot)

  datatype ScoreboardError = IllegalArgument(message: string) | IllegalState(message: string)

  datatype Board = Board(
    players: set<PlayerId>,
    objectives: map<string, Objective>,
    byCriterion: map<Criterion, set<Objective>>,
    slots: map<DisplaySlot, Objective>)

  datatype Update = Update(board: Board, broadcast: Option<seq<Message>>)

  const EMPTY: Board := Board({}, map[], map[], map[])

  /**
   * The board's indexes agree: objectives are keyed by their names, the
   * criterion index holds exactly the registered objectives under their
   * criteria (and no empty entries), and every slot shows a registered objective.
   */
  ghost predicate Valid(b: Board) {
    && (forall n :: n in b.objectives ==> b.objectives[n].name == n)
    && (forall c :: c in b.byCriterion ==> b.byCriterion[c] != {})
    && (forall c, o :: c in b.byCriterion && o in b.byCriterion[c] <==> o.name in b.objectives && b.objectives[o.name] == o && o.criterion == c)
    && (forall s :: s in b.slots ==> b.slots[s].name in b.objectives && b.objectives[b.slots[s].name] == b.slots[s])
  }

  /** `sendToPlayers`: the supplier's messages go out only if someone is listening. */
  function SendToPlayers(b: Board, messages: seq<Message>): (r: Option<seq<Message>>)
    ensures r.None? <==> b.players == {}
    ensures r.Some? ==> r.value == messages
  {
    if b.players == {} then None else Some(messages)
  }

  /** `createObjectiveInitMessages`: create the objective, then set each of its scores. */
  function InitMessages(o: Objective): (r: seq<Message>)
    ensures |r| == |o.scores| + 1 && r[0] == ObjectiveCreate(o.name, o.displayName, o.displayMode)
    ensures forall i :: 0 <= i < |o.scores| ==> r[i + 1] == ScoreCreateOrUpdate(o.name, o.scores[i].name, o.scores[i].value)
  {
    [ObjectiveCreate(o.name, o.displayName, o.displayMode)]
      + seq(|o.scores|, i requires 0 <= i < |o.scores| => ScoreCreateOrUpdate(o.name, o.scores[i].name, o.scores[i].value))
  }

  /**
   * `getObjectivesByCriteria`: empty for a criterion nobody uses; on a
   * consistent board, exactly the registered objectives with that criterion.
   */
  function ObjectivesByCriterion(b: Board, c: Criterion): (r: set<Objective>)
    ensures c !in b.byCriterion ==> r == {}
    ensures Valid(b) ==> forall o :: o in r <==> o.name in b.objectives && b.objectives[o.name] == o && o.criterion == c
  {
    if c in b.byCriterion then b.byCriterion[c] else {}
  }

  /**
   * `getObjective(name)`: present exactly for a registered name; on a
   * consistent board the objective found carries that name and is indexed
   * under its criterion.
   */
  function GetObjective(b: Board, name: string): (r: Option<Objective>)
    ensures r.Some? <==> name in b.objectives
    ensures r.Some? && Valid(b) ==> r.value.name == name && r.value in ObjectivesByCriterion(b, r.value.criterion)
  {
    if name in b.objectives then Some(b.objectives[name]) else None
  }

  /**
   * `getObjective(slot)`: present exactly for an occupied slot; on a
   * consistent board the objective shown is the one registered under its name.
   */
  function GetSlotObjective(b: Board, slot: DisplaySlot): (r: Option<Objective>)
    ensures r.Some? <==> slot in b.slots
    ensures r.Some? && Valid(b) ==> GetObjective(b, r.value.name) == Some(r.value)
  {
    if slot in b.slots then Some(b.slots[slot]) else None
  }

  /** `addObjective`: a new name only; the objective becomes findable by name and criterion. */
  function AddObjective(b: Board, o: Objective): (r: Result<Update, ScoreboardError>)
    ensures r.Ok? <==> o.name !in b.objectives
    ensures r.Err? ==> r.error == IllegalArgument("A score with the name " + o.name + " already exists!")
    ensures r.Ok? ==> GetObjective(r.value.board, o.name) == Some(o)
    ensures r.Ok? ==> ObjectivesByCriterion(r.value.board, o.criterion) == ObjectivesByCriterion(b, o.criterion) + {o}
    ensures r.Ok? ==> forall n :: n != o.name ==> GetObjective(r.value.board, n) == GetObjective(b, n)
    ensures r.Ok? ==> r.value.board.slots == b.slots && r.value.board.players == b.players
    ensures r.Ok? ==> r.value.broadcast == SendToPlayers(b, InitMessages(o))
    ensures r.Ok? && Valid(b) ==> Valid(r.value.board)
  {
    if o.name in b.objectives then Err(IllegalArgument("A score with the name " + o.name + " already exists!"))
    else
      AddValid(b, o);
      Ok(Update(With(b, o), SendToPlayers(b, InitMessages(o))))
  }

  /** The board with the new objective `o` registered by name and criterion. */
  function With(b: Board, o: Objective): Board {
    b.(objectives := b.objectives[o.name := o],
       byCriterion := b.byCriterion[o.criterion := ObjectivesByCriterion(b, o.criterion) + {o}])
  }

  lemma AddValid(b: Board, o: Objective)
    requires o.name !in b.objectives
    ensures Valid(b) ==> Valid(With(b, o))
  {
    if Valid(b) {
      var r := With(b, o);
      forall c, x
        ensures c in r.byCriterion && x in r.byCriterion[c] <==> x.name in r.objectives && r.objectives[x.name] == x && x.criterion == c
      {
        if x.name in b.objectives && x == b.objectives[x.name] {
          assert x != o;
        }
      }
    }
  }

  /** The board without the registered objective `o`. */
  function Without(b: Board, o: Objective): Board {
    var left := ObjectivesByCriterion(b, o.criterion) - {o};
    b.(
      objectives := b.objectives - {o.name},
      byCriterion := if left == {} then b.byCriterion - {o.criterion} else b.byCriterion[o.criterion := left],
      slots := map s | s in b.slots && b.slots[s] != o :: b.slots[s])
  }

  lemma WithoutValid(b: Board, o: Objective)
    requires o.name in b.objectives && b.objectives[o.name] == o
    ensures Valid(b) ==> Valid(Without(b, o))
  {
    if !Valid(b) {
      return;
    }
    var r := Without(b, o);
    forall c, x
      ensures c in r.byCriterion && x in r.byCriterion[c] <==> x.name in r.objectives && r.objectives[x.name] == x && x.criterion == c
    {
      if x.name in r.objectives && r.objectives[x.name] == x && x.criterion == c {
        assert x != o;
        assert x in ObjectivesByCriterion(b, c);
      }
      if c in r.byCriterion && x in r.byCriterion[c] {
        assert c in b.byCriterion && x in b.byCriterion[c];
        assert x != o;
        assert x.name != o.name;
      }
    }
  }

  /**
   * `removeObjective`: only the objective registered under its name is
   * removed, from the name map, the criterion index and every display slot;
   * any other objective leaves the board untouched and sends nothing.
   */
  function RemoveObjective(b: Board, o: Objective): (r: Update)
    ensures !(o.name in b.objectives && b.objectives[o.name] == o) ==> r == Update(b, None)
    ensures o.name in b.objectives && b.objectives[o.name] == o ==>
      && GetObjective(r.board, o.name).None?
      && ObjectivesByCriterion(r.board, o.criterion) == ObjectivesByCriterion(b, o.criterion) - {o}
      && (forall s :: GetSlotObjective(r.board, s) == if GetSlotObjective(b, s) == Some(o) then None else GetSlotObjective(b, s))
      && r.broadcast == SendToPlayers(b, [ObjectiveRemove(o.name)])
    ensures Valid(b) ==> Valid(r.board)
  {
    if o.name in b.objectives && b.objectives[o.name] == o then
      WithoutValid(b, o);
      Update(Without(b, o), SendToPlayers(b, [ObjectiveRemove(o.name)]))
    else Update(b, None)
  }

  /**
   * `updateDisplaySlot`: clearing a slot tells the players only if it was
   * occupied; showing an objective requires it to be registered and tells
   * the players only if the slot's objective changes.
   */
  function UpdateDisplaySlot(b: Board, objective: Option<Objective>, slot: DisplaySlot): (r: Result<Update, ScoreboardError>)
    ensures r.Ok? <==> objective.None? || objective.value in b.objectives.Values
    ensures r.Err? ==> r.error == IllegalState("The specified objective does not exist in this scoreboard.")
    ensures r.Ok? ==> GetSlotObjective(r.value.board, slot) == objective
    ensures r.Ok? ==> forall s :: s != slot ==> GetSlotObjective(r.value.board, s) == GetSlotObjective(b, s)
    ensures r.Ok? ==> r.value.board.objectives == b.objectives && r.value.board.byCriterion == b.byCriterion
    ensures r.Ok? ==> (r.value.broadcast.Some? <==> b.players != {} && GetSlotObjective(b, slot) != objective)
    ensures r.Ok? && r.value.broadcast.Some? ==>
      r.value.broadcast.value == [DisplayObjective(if objective.Some? then Some(objective.value.name) else None, slot)]
    ensures r.Ok? && Valid(b) ==> Valid(r.value.board)
  {
    match objective
    case None =>
      if slot in b.slots then Ok(Update(b.(slots := b.slots - {slot}), SendToPlayers(b, [DisplayObjective(None, slot)])))
      else Ok(Update(b, None))
    case Some(o) =>
      if o !in b.objectives.Values then Err(IllegalState("The specified objective does not exist in this scoreboard."))
      else
        var changed := !(slot in b.slots && b.slots[slot] == o);
        Ok(Update(b.(slots := b.slots[slot := o]), if changed then SendToPlayers(b, [DisplayObjective(Some(o.name), slot)]) else None))
  }

  /** `addPlayer`: the new player gets every objective's init messages and every slot assignment. */
  function AddPlayer(b: Board, p: PlayerId): (r: (Board, set<seq<Message>>, set<Message>))
    ensures r.0 == b.(players := b.players + {p})
    ensures forall m :: m in r.1 <==> exists n :: n in b.objectives && m == InitMessages(b.objectives[n])
    ensures forall m :: m in r.2 <==> exists s :: s in b.slots && m == DisplayObjective(Some(b.slots[s].name), s)
  {
    (b.(players := b.players + {p}),
     set n | n in b.objectives :: InitMessages(b.objectives[n]),
     set s | s in b.slots :: DisplayObjective(Some(b.slots[s].name), s))
  }

  /** `removePlayer`: the player leaves and is told to remove every objective. */
  function RemovePlayer(b: Board, p: PlayerId): (r: (Board, set<Message>))
    ensures p !in r.0.players && r.0.players == b.players - {p}
    ensures forall m :: m in r.1 <==> exists n :: n in b.objectives && m == ObjectiveRemove(n)
  {
    (b.(players := b.players - {p}), set n | n in b.objectives :: ObjectiveRemove(n))
  }

  /** Removing an objective just added restores the board. */
  lemma AddThenRemove(b: Board, o: Objective)
    requires Valid(b) && o.name !in b.objectives
    ensures RemoveObjective(AddObjective(b, o).value.board, o).board == b
  {
    assert AddObjective(b, o).value.board == With(b, o);
    assert RemoveObjective(With(b, o), o).board == Without(With(b, o), o);
    assert forall s :: s in b.slots ==> b.slots[s] != o;
    WithThenWithout(b, o);
  }

  lemma WithThenWithout(b: Board, o: Objective)
    requires o.name !in b.objectives
    requires forall s :: s in b.slots ==> b.slots[s] != o
    requires o !in ObjectivesByCriterion(b, o.criterion)
    requires o.criterion in b.byCriterion ==> b.byCriterion[o.criterion] != {}
    ensures Without(With(b, o), o) == b
  {
    var b2 := Without(With(b, o), o);
    assert b2.objectives == b.objectives;
    assert b2.slots == b.slots;
    assert b2.byCriterion == b.byCriterion by {
      assert ObjectivesByCriterion(With(b, o), o.criterion) - {o} == ObjectivesByCriterion(b, o.criterion);
    }
  }
}
