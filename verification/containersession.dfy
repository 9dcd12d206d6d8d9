/**
 * `PlayerContainerSession`: the cursor item, the open container and the
 * drag ("painting") state machine of one player. Slot lookups, slot offer
 * results and event cancellation are inputs; the model computes what the
 * session offers to which slot, what it leaves on the cursor, and which
 * slots it sets or resends.
 */
module ContainerSession {
  import opened Wrappers

  type SlotId = nat

  /** An item stack: its kind (type and data, compared by `isEqualToOther`) and its quantity. */
  datatype ItemStack = ItemStack(kind: nat, quantity: int)

  /** What the session needs to know of a slot to add it to a drag. */
  datatype Slot = Slot(id: SlotId, isOutput: bool, validKinds: set<nat>, raw: Option<ItemStack>)

  datatype Container = Container(windowId: int)

  /** The drag state: `-1`, `0` and `1` in the source. */
  datatype DragState = Idle | LeftDrag | RightDrag

  datatype Session = Session(open: Option<Container>, cursor: Option<ItemStack>, dragSlots: seq<Slot>, drag: DragState)

  datatype Click = Click(windowId: int, button: int, mode: int, slot: int)

  /** A drag finish event: the cursor's before and after, and the stack offered to each drag slot. */
  datatype DragEvent = DragEvent(primary: bool, cursorBefore: ItemStack, cursorAfter: Option<ItemStack>, offers: seq<(SlotId, ItemStack)>)

  datatype ClickError = ArithmeticException(message: string)

  /** A cursor is never an empty stack, and a slot is in the drag list at most once. */
  predicate Valid(s: Session) {
    && (s.cursor.Some? ==> s.cursor.value.quantity > 0)
    && (forall i, j :: 0 <= i < j < |s.dragSlots| ==> s.dragSlots[i].id != s.dragSlots[j].id)
    && (s.drag == Idle ==> s.dragSlots == [])
  }

  function ResetDrag(s: Session): (r: Session)
    ensures r.drag == Idle && r.dragSlots == [] && r.cursor == s.cursor && r.open == s.open
  {
    s.(drag := Idle, dragSlots := [])
  }

  /** The total quantity offered. */
  function Offered(offers: seq<(SlotId, ItemStack)>): int {
    if |offers| == 0 then 0 else Offered(offers[..|offers| - 1]) + offers[|offers| - 1].1.quantity
  }

  function Remaining(e: DragEvent): int {
    if e.cursorAfter.Some? then e.cursorAfter.value.quantity else 0
  }

  /** `n` copies of the same stack offer `n` times its quantity. */
  lemma {:induction false} OfferedUniform(offers: seq<(SlotId, ItemStack)>, q: int)
    requires forall i :: 0 <= i < |offers| ==> offers[i].1.quantity == q
    ensures Offered(offers) == |offers| * q
    decreases |offers|
  {
    if |offers| > 0 {
      OfferedUniform(offers[..|offers| - 1], q);
    }
  }

  /** Each drag slot offered a copy of the cursor with quantity `q`. */
  function Offers(cursor: ItemStack, slots: seq<Slot>, q: int): (r: seq<(SlotId, ItemStack)>)
    ensures |r| == |slots| && Offered(r) == |slots| * q
    ensures forall i :: 0 <= i < |slots| ==> r[i] == (slots[i].id, cursor.(quantity := q))
  {
    var r := seq(|slots|, i requires 0 <= i < |slots| => (slots[i].id, cursor.(quantity := q)));
    OfferedUniform(r, q);
    r
  }

  /** A cursor stack of `q` items, or none when nothing is left. */
  function CursorOf(cursor: ItemStack, q: int): Option<ItemStack> {
    if q > 0 then Some(cursor.(quantity := q)) else None
  }

  /**
   * Finishing a left drag as written: the quantity is divided by the number
   * of drag slots, which throws when the drag covered no slot.
   */
  function FinishLeftAsWritten(cursor: ItemStack, slots: seq<Slot>): (r: Result<DragEvent, ClickError>)
    requires cursor.quantity > 0
    ensures r.Err? <==> |slots| == 0
    ensures r.Ok? ==> r.value.primary && |r.value.offers| == |slots|
    ensures r.Ok? ==> Offered(r.value.offers) + Remaining(r.value) == cursor.quantity
    ensures r.Ok? ==> 0 <= Remaining(r.value) < |slots|
  {
    if |slots| == 0 then Err(ArithmeticException("/ by zero"))
    else
      var perSlot := cursor.quantity / |slots|;
      var rest := cursor.quantity - perSlot * |slots|;
      Ok(DragEvent(true, cursor, CursorOf(cursor, rest), Offers(cursor, slots, perSlot)))
  }

  /** Finishing a left drag as intended: with no drag slot there is nothing to share out. */
  function FinishLeft(cursor: ItemStack, slots: seq<Slot>): (r: Option<DragEvent>)
    requires cursor.quantity > 0
    ensures r.None? <==> |slots| == 0
    ensures r.Some? ==> r == Some(FinishLeftAsWritten(cursor, slots).value)
    ensures r.Some? ==> Offered(r.value.offers) + Remaining(r.value) == cursor.quantity
    ensures r.Some? ==> forall i :: 0 <= i < |slots| ==> r.value.offers[i].1.quantity == cursor.quantity / |slots|
  {
    if |slots| == 0 then None else Some(FinishLeftAsWritten(cursor, slots).value)
  }

  /**
   * Finishing a right drag as written: every drag slot is offered one item,
   * while the cursor gives up only `min(|slots|, quantity)` of them.
   */
  function FinishRightAsWritten(cursor: ItemStack, slots: seq<Slot>): (r: DragEvent)
    requires cursor.quantity > 0
    ensures !r.primary && |r.offers| == |slots| && Offered(r.offers) == |slots|
    ensures Remaining(r) == cursor.quantity - (if |slots| < cursor.quantity then |slots| else cursor.quantity)
  {
    var size := if |slots| < cursor.quantity then |slots| else cursor.quantity;
    DragEvent(false, cursor, CursorOf(cursor, cursor.quantity - size), Offers(cursor, slots, 1))
  }

  /** Finishing a right drag as intended: only as many slots as there are items get one each. */
  function FinishRight(cursor: ItemStack, slots: seq<Slot>): (r: DragEvent)
    requires cursor.quantity > 0
    ensures !r.primary && |r.offers| == (if |slots| < cursor.quantity then |slots| else cursor.quantity)
    ensures forall i :: 0 <= i < |r.offers| ==> r.offers[i] == (slots[i].id, cursor.(quantity := 1))
    ensures Offered(r.offers) + Remaining(r) == cursor.quantity
  {
    var size := if |slots| < cursor.quantity then |slots| else cursor.quantity;
    DragEvent(false, cursor, CursorOf(cursor, cursor.quantity - size), Offers(cursor, slots[..size], 1))
  }

  /** Right-dragging one item over two slots offers two items: one is created from nothing. */
  lemma RightDragDuplicates(cursor: ItemStack, slots: seq<Slot>)
    requires cursor.quantity > 0 && |slots| > cursor.quantity
    ensures Offered(FinishRightAsWritten(cursor, slots).offers) + Remaining(FinishRightAsWritten(cursor, slots))
      == cursor.quantity + (|slots| - cursor.quantity)
    ensures Offered(FinishRight(cursor, slots).offers) + Remaining(FinishRight(cursor, slots)) == cursor.quantity
  {
  }

  /** With no more slots than items, the written right drag is the intended one. */
  lemma RightDragAgrees(cursor: ItemStack, slots: seq<Slot>)
    requires 0 < |slots| <= cursor.quantity
    ensures FinishRightAsWritten(cursor, slots) == FinishRight(cursor, slots)
  {
    assert slots[..|slots|] == slots;
  }

  /** Whether a slot may join the drag: not an output, valid for the cursor, empty or of the same kind, new. */
  predicate CanAdd(s: Session, slot: Slot)
    requires s.cursor.Some?
  {
    && !slot.isOutput
    && s.cursor.value.kind in slot.validKinds
    && (slot.raw.None? || slot.raw.value.kind == s.cursor.value.kind)
    && forall i :: 0 <= i < |s.dragSlots| ==> s.dragSlots[i].id != slot.id
  }

  datatype ClickResult =
    | Ignored
    | Handled(session: Session, event: Option<DragEvent>)
    | OtherMode

  /**
   * The drag part of `handleWindowClick`. A finished drag yields its event
   * (applied by `FinishInventoryEvent`) and resets the drag. Clicks for another window, or with
   * no container open, are ignored. Mode 5 drives the drag: an empty cursor
   * resets it; from idle, button 0 starts a left drag and button 4 a right
   * drag; during a drag, the matching add button (1 or 5) adds the clicked
   * slot and the matching end button (2 or 6) finishes the drag; any other
   * button resets it. Any other mode during a drag only resets it; other
   * modes from idle are the single-click handlers (`OtherMode`).
   */
  function HandleWindowClick(s: Session, c: Click, slotAt: int -> Option<Slot>): (r: ClickResult)
    requires Valid(s)
    ensures r.Ignored? <==> s.open.None? || c.windowId != s.open.value.windowId
    ensures r.Handled? ==> Valid(r.session) && r.session.open == s.open
    ensures r.Handled? && c.mode != 5 ==> r.session == ResetDrag(s) && r.event.None?
    ensures r.Handled? ==> r.session.cursor == s.cursor
    ensures r.Handled? && r.event.Some? ==>
      (r.session == ResetDrag(s) && s.cursor == Some(r.event.value.cursorBefore)
       && Offered(r.event.value.offers) + Remaining(r.event.value) == r.event.value.cursorBefore.quantity)
    ensures r.OtherMode? <==> !r.Ignored? && c.mode != 5 && s.drag == Idle
  {
    if s.open.None? || c.windowId != s.open.value.windowId then Ignored
    else if c.mode == 5 then
      if s.cursor.None? then Handled(ResetDrag(s), None)
      else if s.drag != Idle then
        if (s.drag == LeftDrag && (c.button == 1 || c.button == 2)) || (s.drag == RightDrag && (c.button == 5 || c.button == 6)) then
          if c.button == 2 then Handled(ResetDrag(s), FinishLeft(s.cursor.value, s.dragSlots))
          else if c.button == 6 then Handled(ResetDrag(s), Some(FinishRight(s.cursor.value, s.dragSlots)))
          else
            match slotAt(c.slot)
            case Some(slot) =>
              if CanAdd(s, slot) then Handled(s.(dragSlots := s.dragSlots + [slot]), None)
              else Handled(s, None)
            case None => Handled(s, None)
        else Handled(ResetDrag(s), None)
      else if c.button == 0 then Handled(s.(drag := LeftDrag), None)
      else if c.button == 4 then Handled(s.(drag := RightDrag), None)
      else Handled(s, None)
    else if s.drag != Idle then Handled(ResetDrag(s), None)
    else OtherMode
  }

  /**
   * Finishing a drag where the written and the intended finish coincide: a
   * left drag over at least one slot, or a right drag over no more slots
   * than items. There the handler's event is exactly the source's.
   */
  lemma FinishAgreesWithSource(s: Session, c: Click, slotAt: int -> Option<Slot>)
    requires Valid(s) && s.open.Some? && c.windowId == s.open.value.windowId && c.mode == 5 && s.cursor.Some?
    requires || (s.drag == LeftDrag && c.button == 2 && |s.dragSlots| > 0)
             || (s.drag == RightDrag && c.button == 6 && |s.dragSlots| <= s.cursor.value.quantity)
    ensures var r := HandleWindowClick(s, c, slotAt);
      && r.Handled? && r.session == ResetDrag(s)
      && r.event == Some(if c.button == 2 then FinishLeftAsWritten(s.cursor.value, s.dragSlots).value
                         else FinishRightAsWritten(s.cursor.value, s.dragSlots))
  {
    if c.button == 6 {
      if |s.dragSlots| > 0 {
        RightDragAgrees(s.cursor.value, s.dragSlots);
      } else {
        assert s.dragSlots[..0] == s.dragSlots;
      }
    }
  }

  /** A drag is started from idle by button 0 (left) or 4 (right) with an item on the cursor. */
  lemma DragStarts(s: Session, c: Click, slotAt: int -> Option<Slot>)
    requires Valid(s) && s.open.Some? && c.windowId == s.open.value.windowId && c.mode == 5
    requires s.cursor.Some? && s.drag == Idle
    ensures var r := HandleWindowClick(s, c, slotAt);
      r.Handled? && r.session.drag == (if c.button == 0 then LeftDrag else if c.button == 4 then RightDrag else Idle)
  {
  }

  /** A drag click with nothing on the cursor resets the drag, whatever the button. */
  lemma EmptyCursorResets(s: Session, c: Click, slotAt: int -> Option<Slot>)
    requires Valid(s) && s.open.Some? && c.windowId == s.open.value.windowId && c.mode == 5
    requires s.cursor.None?
    ensures HandleWindowClick(s, c, slotAt) == Handled(ResetDrag(s), None)
  {
  }

  /**
   * During a drag, a button that belongs to neither the add nor the end
   * step of that drag (for example 5 during a left drag) resets it.
   */
  lemma MismatchedButtonResets(s: Session, c: Click, slotAt: int -> Option<Slot>)
    requires Valid(s) && s.open.Some? && c.windowId == s.open.value.windowId && c.mode == 5
    requires s.cursor.Some? && s.drag != Idle
    requires !((s.drag == LeftDrag && (c.button == 1 || c.button == 2)) || (s.drag == RightDrag && (c.button == 5 || c.button == 6)))
    ensures HandleWindowClick(s, c, slotAt) == Handled(ResetDrag(s), None)
  {
  }

  /** The drag list grows by the clicked slot exactly when it may join. */
  lemma AddSlotStep(s: Session, c: Click, slotAt: int -> Option<Slot>)
    requires Valid(s) && s.open.Some? && c.windowId == s.open.value.windowId && c.mode == 5 && s.cursor.Some?
    requires (s.drag == LeftDrag && c.button == 1) || (s.drag == RightDrag && c.button == 5)
    ensures var r := HandleWindowClick(s, c, slotAt);
      r.Handled? && r.event.None? && r.session.drag == s.drag
      && r.session.dragSlots == if slotAt(c.slot).Some? && CanAdd(s, slotAt(c.slot).value) then s.dragSlots + [slotAt(c.slot).value] else s.dragSlots
  {
  }

  /** A right click on an empty cursor takes the larger half of the slot's stack: `n - n/2`. */
  function TakeHalf(n: nat): (taken: nat)
    ensures taken == n - taken || taken == n - taken + 1
  {
    n - n / 2
  }

  /** A slot transaction: the slot, its final contents, and whether it is still valid. */
  datatype SlotTransaction = SlotTransaction(slot: SlotId, final: Option<ItemStack>, valid: bool)

  datatype CursorTransaction = CursorTransaction(final: Option<ItemStack>, valid: bool)

  /** `toNullable`: an empty stack becomes no stack. */
  function ToNullable(item: Option<ItemStack>): (r: Option<ItemStack>)
    ensures r.Some? <==> item.Some? && item.value.quantity > 0
    ensures r.Some? ==> r == item
  {
    if item.Some? && item.value.quantity <= 0 then None else item
  }

  /** What finishing an event does: the new cursor, whether the cursor is resent, slots set and slots resent. */
  datatype Effects = Effects(cursor: Option<ItemStack>, cursorResent: bool, sets: seq<(SlotId, Option<ItemStack>)>, queued: seq<SlotId>)

  function ValidSets(ts: seq<SlotTransaction>): (r: seq<(SlotId, Option<ItemStack>)>)
    ensures |r| <= |ts|
  {
    if |ts| == 0 then []
    else ValidSets(ts[..|ts| - 1]) + (if ts[|ts| - 1].valid then [(ts[|ts| - 1].slot, ts[|ts| - 1].final)] else [])
  }

  function InvalidSlots(ts: seq<SlotTransaction>): (r: seq<SlotId>)
    ensures |r| <= |ts|
  {
    if |ts| == 0 then []
    else InvalidSlots(ts[..|ts| - 1]) + (if ts[|ts| - 1].valid then [] else [ts[|ts| - 1].slot])
  }

  /** Every transaction is either applied or resent, never both. */
  lemma {:induction false} Partition(ts: seq<SlotTransaction>)
    ensures |ValidSets(ts)| + |InvalidSlots(ts)| == |ts|
    ensures forall x :: x in ValidSets(ts) <==> exists i :: 0 <= i < |ts| && ts[i].valid && x == (ts[i].slot, ts[i].final)
    ensures forall id :: id in InvalidSlots(ts) <==> exists i :: 0 <= i < |ts| && !ts[i].valid && id == ts[i].slot
    decreases |ts|
  {
    if |ts| > 0 {
      var init := ts[..|ts| - 1];
      Partition(init);
      assert forall i :: 0 <= i < |init| ==> init[i] == ts[i];
    }
  }

  /**
   * `finishInventoryEvent`: a cancelled event resends the cursor and every
   * transaction's slot and sets nothing. Otherwise a valid cursor
   * transaction sets the cursor and an invalid one resends it, valid slot
   * transactions are applied and invalid ones resent. A creative click
   * (`CreativeInventoryEvent.Click`) leaves the cursor alone.
   */
  function FinishInventoryEvent(cursor: Option<ItemStack>, cancelled: bool, creativeClick: bool,
                                ct: CursorTransaction, ts: seq<SlotTransaction>): (r: Effects)
    ensures (cursor.Some? ==> cursor.value.quantity > 0) ==> (r.cursor.Some? ==> r.cursor.value.quantity > 0)
    ensures cancelled ==>
      (r.cursor == cursor && r.cursorResent && r.sets == []
       && |r.queued| == |ts| && forall i :: 0 <= i < |ts| ==> r.queued[i] == ts[i].slot)
    ensures !cancelled ==> r.sets == ValidSets(ts) && r.queued == InvalidSlots(ts)
    ensures !cancelled && creativeClick ==> r.cursor == cursor && !r.cursorResent
    ensures !cancelled && !creativeClick ==>
      (r.cursorResent && r.cursor == if ct.valid then ToNullable(ct.final) else cursor)
  {
    if cancelled then Effects(cursor, true, [], seq(|ts|, i requires 0 <= i < |ts| => ts[i].slot))
    else
      var c := if creativeClick then cursor else if ct.valid then ToNullable(ct.final) else cursor;
      Effects(c, !creativeClick, ValidSets(ts), InvalidSlots(ts))
  }

  /** An accepted drag finish leaves exactly the event's remainder on the cursor. */
  lemma DragFinishApplied(s: Session, c: Click, slotAt: int -> Option<Slot>, ts: seq<SlotTransaction>)
    requires Valid(s)
    requires HandleWindowClick(s, c, slotAt).Handled? && HandleWindowClick(s, c, slotAt).event.Some?
    ensures var e := HandleWindowClick(s, c, slotAt).event.value;
      var fx := FinishInventoryEvent(s.cursor, false, false, CursorTransaction(e.cursorAfter, true), ts);
      fx.cursor == e.cursorAfter && Offered(e.offers) + Remaining(e) == s.cursor.value.quantity
  {
  }

  /** The effects on the viewer lists and the cursor of switching containers. */
  datatype SwitchEffect = AddViewer(container: Container) | InitializeFor(container: Container) | SendCursor
    | ReturnCursor(container: Container, item: ItemStack) | RemoveViewer(container: Container)

  /**
   * `setRawOpenContainer`: switching to another container registers the
   * player with it and resends the cursor; leaving one unregisters the
   * player, and closing (no new container) returns the cursor item to the
   * player's inventory in the old container.
   */
  function SetRawOpenContainer(s: Session, container: Option<Container>): (r: (Session, seq<SwitchEffect>))
    ensures r.0.open == container && r.0.dragSlots == s.dragSlots && r.0.drag == s.drag
    ensures s.open == container ==> r.1 == [] && r.0 == s
    ensures r.0.cursor == if s.open.Some? && s.open != container && container.None? then None else s.cursor
    ensures s.open != container && container.Some? ==> |r.1| >= 3 && r.1[..3] == [AddViewer(container.value), InitializeFor(container.value), SendCursor]
    ensures s.open != container && s.open.Some? ==> |r.1| > 0 && r.1[|r.1| - 1] == RemoveViewer(s.open.value)
    ensures forall i :: 0 <= i < |r.1| && r.1[i].ReturnCursor? ==> s.open != container && container.None? && s.cursor == Some(r.1[i].item)
  {
    if s.open == container then (s, [])
    else
      var opening := if container.Some? then [AddViewer(container.value), InitializeFor(container.value), SendCursor] else [];
      var closing :=
        if s.open.Some? then
          (if container.None? && s.cursor.Some? then [ReturnCursor(s.open.value, s.cursor.value)] else [])
            + [RemoveViewer(s.open.value)]
        else [];
      var cursor := if s.open.Some? && container.None? then None else s.cursor;
      (s.(open := container, cursor := cursor), opening + closing)
  }
}
