/**
 The kanban board of the dashboard (src/App.js:44-77) as a pure state machine.
 The state is the ordered list of cards plus the text typed into the "New
 Task" field; each event handler is one synchronous transition from a board
 to the next board.
 */
module Kanban {
  import Text
  import Reorder

  datatype Option<T> = None | Some(value: T)

  /** One kanban card. */
  datatype Item = Item(id: string, content: string)

  /** The component state: the card list (`kanban`) and the pending text of
      the input field (`newTask`). */
  datatype Board = Board(items: seq<Item>, pending: string)

  /** What the drag layer reports when a drag ends: the index the card was
      picked up from and, when it was dropped on the list, the index it was
      dropped at. */
  datatype DropResult = DropResult(source: nat, destination: Option<nat>)

  /** The identifier a card gets when it is added to a list of `n - 1`
      cards: `item-<n>`. */
  function ItemId(n: nat): (id: string)
    ensures |id| > 5 && id[..5] == "item-"
  {
    "item-" + Text.NatToString(n)
  }

  /** After the `item-` prefix, an identifier is the decimal digits of its
      number. */
  lemma ItemIdDigits(n: nat)
    ensures Text.IsDigits(ItemId(n)[5..]) && Text.ParseDigits(ItemId(n)[5..]) == n
  {
    Text.ParseNatToString(n);
    assert ItemId(n)[5..] == Text.NatToString(n);
  }

  /** Identifiers built from different numbers differ. */
  lemma ItemIdInjective(a: nat, b: nat)
    ensures ItemId(a) == ItemId(b) <==> a == b
  {
    if ItemId(a) == ItemId(b) {
      assert Text.NatToString(a) == ItemId(a)[5..];
      assert Text.NatToString(b) == ItemId(b)[5..];
      Text.NatToStringInjective(a, b);
    }
  }

  /** The three seed cards and an empty input field. */
  function Initial(): (b: Board)
    ensures |b.items| == 3 && b.pending == ""
    ensures forall i :: 0 <= i < 3 ==> b.items[i].id == ItemId(i + 1)
  {
    Board([Item("item-1", "First task"), Item("item-2", "Second task"), Item("item-3", "Third task")], "")
  }

  /** The drop indices address cards of the board whenever there is a
      destination; a cancelled drag carries no obligation. */
  predicate DropFits(b: Board, result: DropResult) {
    result.destination.Some? ==>
      result.source < |b.items| && result.destination.value < |b.items|
  }

  /** `onDragEnd`: a drag with no destination leaves the board alone;
      otherwise the card at the source index is moved to the destination
      index. The cards are permuted, the moved card sits at the destination,
      the other cards keep their relative order, and the text is kept. */
  function OnDragEnd(b: Board, result: DropResult): (r: Board)
    requires DropFits(b, result)
    ensures result.destination.None? ==> r == b
    ensures r.pending == b.pending
    ensures |r.items| == |b.items| && multiset(r.items) == multiset(b.items)
    ensures result.destination.Some? ==>
      && r.items[result.destination.value] == b.items[result.source]
      && Reorder.RemoveAt(r.items, result.destination.value) == Reorder.RemoveAt(b.items, result.source)
  {
    match result.destination
    case None => b
    case Some(dst) => b.(items := Reorder.Move(b.items, result.source, dst))
  }

  /** `handleAddTask`: blank text changes nothing. Otherwise exactly one card
      is appended, carrying the untrimmed text and the identifier derived
      from the new length, the earlier cards are untouched, and the input
      field is cleared. */
  function AddTask(b: Board): (r: Board)
    ensures (forall i :: 0 <= i < |b.pending| ==> Text.IsWhitespace(b.pending[i])) ==> r == b
    ensures (exists i :: 0 <= i < |b.pending| && !Text.IsWhitespace(b.pending[i])) ==>
      && |r.items| == |b.items| + 1
      && r.items[..|b.items|] == b.items
      && r.items[|b.items|] == Item(ItemId(|b.items| + 1), b.pending)
      && r.pending == ""
  {
    if !Text.IsBlank(b.pending) then
      Board(b.items + [Item(ItemId(|b.items| + 1), b.pending)], "")
    else
      b
  }

  /** `handleDeleteTask`'s filter: keep the cards whose identifier differs
      from `id`. */
  function KeepOthers(items: seq<Item>, id: string): seq<Item>
    decreases |items|
  {
    if items == [] then []
    else if items[0].id == id then KeepOthers(items[1..], id)
    else [items[0]] + KeepOthers(items[1..], id)
  }

  /** The filter keeps the cards whose identifier differs from `id`, in
      their original order and with their original multiplicities, and no
      other card. */
  lemma {:induction false} KeepOthersSpec(items: seq<Item>, id: string)
    ensures IsSubsequence(KeepOthers(items, id), items)
    ensures forall x :: multiset(KeepOthers(items, id))[x] == if x.id == id then 0 else multiset(items)[x]
    decreases |items|
  {
    if items != [] {
      assert items == [items[0]] + items[1..];
      KeepOthersSpec(items[1..], id);
    }
  }

  /** `r` is `s` with some elements dropped and the rest in order. */
  predicate IsSubsequence<T(==)>(r: seq<T>, s: seq<T>)
    decreases |s|
  {
    if s == [] then r == []
    else (|r| > 0 && r[0] == s[0] && IsSubsequence(r[1..], s[1..])) || IsSubsequence(r, s[1..])
  }

  /** `handleDeleteTask`: every card with identifier `id` disappears, every
      other card stays, in order, and the text is kept. */
  function DeleteTask(b: Board, id: string): (r: Board)
    ensures r.pending == b.pending
    ensures IsSubsequence(r.items, b.items)
    ensures forall x :: x in r.items <==> x in b.items && x.id != id
    ensures forall x :: multiset(r.items)[x] == if x.id == id then 0 else multiset(b.items)[x]
  {
    var kept := KeepOthers(b.items, id);
    KeepOthersSpec(b.items, id);
    assert forall x :: x in kept <==> multiset(kept)[x] > 0;
    b.(items := kept)
  }

  /** The input field's `onChange`: the pending text becomes what was typed,
      and the cards are untouched. */
  function EditPending(b: Board, text: string): (r: Board)
    ensures r.items == b.items && r.pending == text
  {
    b.(pending := text)
  }

  /** The user interactions the board reacts to. */
  datatype Event =
    | Drop(result: DropResult)
    | Type(text: string)
    | AddClick
    | DeleteClick(id: string)

  predicate Enabled(b: Board, e: Event) {
    e.Drop? ==> DropFits(b, e.result)
  }

  /** One interaction, processed to completion. */
  function Step(b: Board, e: Event): Board
    requires Enabled(b, e)
  {
    match e
    case Drop(result) => OnDragEnd(b, result)
    case Type(text) => EditPending(b, text)
    case AddClick => AddTask(b)
    case DeleteClick(id) => DeleteTask(b, id)
  }

  /** Every interaction of the history is enabled in the board it meets. */
  predicate Admissible(b: Board, events: seq<Event>)
    decreases |events|
  {
    events == [] || (Enabled(b, events[0]) && Admissible(Step(b, events[0]), events[1..]))
  }

  /** The board after processing a history of interactions in order. */
  function Run(b: Board, events: seq<Event>): Board
    requires Admissible(b, events)
    decreases |events|
  {
    if events == [] then b else Run(Step(b, events[0]), events[1..])
  }
}
