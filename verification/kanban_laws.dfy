/**
 Properties of the kanban board that relate several transitions: the exact
 meaning of delete, the identifier invariant of delete-free histories, the
 identifier collision a delete makes possible, and a worked session.
 */
module KanbanLaws {
  import Text
  import Reorder
  import opened Kanban

  /** A subsequence never holds an element more often than the sequence. */
  lemma {:induction false} SubsequenceMultiset<T>(r: seq<T>, s: seq<T>)
    requires IsSubsequence(r, s)
    ensures multiset(r) <= multiset(s)
    decreases |s|
  {
    if s != [] {
      assert s == [s[0]] + s[1..];
      if |r| > 0 && r[0] == s[0] && IsSubsequence(r[1..], s[1..]) {
        SubsequenceMultiset(r[1..], s[1..]);
        assert r == [r[0]] + r[1..];
      } else {
        SubsequenceMultiset(r, s[1..]);
      }
    }
  }

  /** The delete filter's contract pins its result down: the only
      subsequence of `items` holding every card whose identifier differs from
      `id`, as often as `items` does, and no other card, is `KeepOthers`. */
  lemma {:induction false} KeepOthersExact(items: seq<Item>, id: string, r: seq<Item>)
    requires IsSubsequence(r, items)
    requires forall x :: multiset(r)[x] == if x.id == id then 0 else multiset(items)[x]
    ensures r == KeepOthers(items, id)
    decreases |items|
  {
    if items != [] {
      var head, tail := items[0], items[1..];
      assert items == [head] + tail;
      if head.id == id {
        if |r| > 0 && r[0] == head {
          assert false;
        }
        KeepOthersExact(tail, id, r);
      } else {
        if !(|r| > 0 && r[0] == head && IsSubsequence(r[1..], tail)) {
          SubsequenceMultiset(r, tail);
          assert false;
        }
        assert r == [head] + r[1..];
        KeepOthersExact(tail, id, r[1..]);
      }
    }
  }

  /** Typing text and then pressing "Add Task" appends a card carrying
      exactly the typed text when it is not blank, and nothing otherwise;
      either way the field ends empty or holding the blank text. */
  lemma TypeThenAdd(b: Board, text: string)
    ensures var r := AddTask(EditPending(b, text));
      && (Text.IsBlank(text) ==> r == b.(pending := text))
      && (!Text.IsBlank(text) ==> r == Board(b.items + [Item(ItemId(|b.items| + 1), text)], ""))
  {
  }

  /** Dragging a card from `i` to `j` and then from `j` back to `i`
      restores the board. */
  lemma DropRoundTrip(b: Board, i: nat, j: nat)
    requires i < |b.items| && j < |b.items|
    ensures OnDragEnd(OnDragEnd(b, DropResult(i, Some(j))), DropResult(j, Some(i))) == b
  {
    Reorder.MoveRoundTrip(b.items, i, j);
  }

  /** Deleting an identifier no card carries leaves the cards unchanged. */
  lemma {:induction false} KeepOthersAbsent(items: seq<Item>, id: string)
    requires forall i :: 0 <= i < |items| ==> items[i].id != id
    ensures KeepOthers(items, id) == items
    decreases |items|
  {
    if items != [] {
      KeepOthersAbsent(items[1..], id);
      assert items == [items[0]] + items[1..];
    }
  }

  /** Deleting an absent identifier is the identity on the whole board. */
  lemma DeleteAbsent(b: Board, id: string)
    requires forall i :: 0 <= i < |b.items| ==> b.items[i].id != id
    ensures DeleteTask(b, id) == b
  {
    KeepOthersAbsent(b.items, id);
  }

  /** Deleting the same identifier twice is deleting it once. */
  lemma DeleteIdempotent(b: Board, id: string)
    ensures DeleteTask(DeleteTask(b, id), id) == DeleteTask(b, id)
  {
    KeepOthersSpec(b.items, id);
    var once := DeleteTask(b, id);
    forall i | 0 <= i < |once.items|
      ensures once.items[i].id != id
    {
      assert once.items[i] in once.items;
    }
    DeleteAbsent(once, id);
  }

  /** The identifiers of the cards, in card order. */
  function IdsOf(items: seq<Item>): (ids: seq<string>)
    ensures |ids| == |items|
  {
    seq(|items|, i requires 0 <= i < |items| => items[i].id)
  }

  /** The identifiers `item-1` .. `item-n`, each once. */
  function ExpectedIds(n: nat): multiset<string> {
    if n == 0 then multiset{} else ExpectedIds(n - 1) + multiset{ItemId(n)}
  }

  /** The cards carry exactly the identifiers `item-1` .. `item-n`, one
      each, where `n` is the number of cards. */
  predicate SequentialIds(items: seq<Item>) {
    multiset(IdsOf(items)) == ExpectedIds(|items|)
  }

  lemma {:induction false} ExpectedIdsCount(n: nat, k: nat)
    ensures ExpectedIds(n)[ItemId(k)] == if 1 <= k <= n then 1 else 0
  {
    if n > 0 {
      ExpectedIdsCount(n - 1, k);
      ItemIdInjective(n, k);
    }
  }

  lemma {:induction false} ExpectedIdsMember(n: nat, x: string)
    requires x in ExpectedIds(n)
    ensures exists k :: 1 <= k <= n && x == ItemId(k)
  {
    if x != ItemId(n) {
      ExpectedIdsMember(n - 1, x);
    }
  }

  lemma TwoOccurrences<T>(s: seq<T>, i: nat, j: nat)
    requires i < j < |s| && s[i] == s[j]
    ensures multiset(s)[s[i]] >= 2
  {
    assert s == s[..j] + s[j..];
    assert s[i] in s[..j] && s[j] in s[j..];
  }

  /** Under the invariant no two cards share an identifier. */
  lemma SequentialIdsDistinct(items: seq<Item>)
    requires SequentialIds(items)
    ensures forall i, j :: 0 <= i < j < |items| ==> items[i].id != items[j].id
  {
    var n, ids := |items|, IdsOf(items);
    forall i, j | 0 <= i < j < n
      ensures items[i].id != items[j].id
    {
      if ids[i] == ids[j] {
        TwoOccurrences(ids, i, j);
        ExpectedIdsMember(n, ids[i]);
        var k :| 1 <= k <= n && ids[i] == ItemId(k);
        ExpectedIdsCount(n, k);
        assert false;
      }
    }
  }

  /** Under the invariant every identifier is one of `item-1` .. `item-n`. */
  lemma SequentialIdsInRange(items: seq<Item>)
    requires SequentialIds(items)
    ensures forall i :: 0 <= i < |items| ==> exists k :: 1 <= k <= |items| && items[i].id == ItemId(k)
  {
    var n, ids := |items|, IdsOf(items);
    forall i | 0 <= i < n
      ensures exists k :: 1 <= k <= n && items[i].id == ItemId(k)
    {
      assert ids[i] in multiset(ids);
      ExpectedIdsMember(n, ids[i]);
    }
  }

  /** Under the invariant each of `item-1` .. `item-n` is some card's
      identifier. */
  lemma SequentialIdsCover(items: seq<Item>)
    requires SequentialIds(items)
    ensures forall k :: 1 <= k <= |items| ==> exists i :: 0 <= i < |items| && items[i].id == ItemId(k)
  {
    var n, ids := |items|, IdsOf(items);
    forall k | 1 <= k <= n
      ensures exists i :: 0 <= i < n && items[i].id == ItemId(k)
    {
      ExpectedIdsCount(n, k);
      assert ItemId(k) in multiset(ids);
      var i :| 0 <= i < n && ids[i] == ItemId(k);
    }
  }

  /** The seed cards are `item-1`, `item-2`, `item-3`. */
  lemma InitialSequential()
    ensures SequentialIds(Initial().items)
  {
    var items := Initial().items;
    assert IdsOf(items) == [ItemId(1), ItemId(2), ItemId(3)];
  }

  /** Appending a card named after the new length keeps the invariant. */
  lemma AppendNextKeepsSequential(items: seq<Item>, x: Item)
    requires SequentialIds(items) && x.id == ItemId(|items| + 1)
    ensures SequentialIds(items + [x])
  {
    assert IdsOf(items + [x]) == IdsOf(items) + [x.id];
  }

  /** Adding a card keeps the invariant: the new identifier is the next one. */
  lemma AddKeepsSequential(b: Board)
    requires SequentialIds(b.items)
    ensures SequentialIds(AddTask(b).items)
  {
    if !Text.IsBlank(b.pending) {
      AppendNextKeepsSequential(b.items, Item(ItemId(|b.items| + 1), b.pending));
    }
  }

  /** Moving cards moves their identifiers along with them. */
  lemma IdsOfMove(s: seq<Item>, src: nat, dst: nat)
    requires src < |s| && dst < |s|
    ensures IdsOf(Reorder.Move(s, src, dst)) == Reorder.Move(IdsOf(s), src, dst)
  {
    Reorder.MoveMatchesReference(s, src, dst);
    Reorder.MoveMatchesReference(IdsOf(s), src, dst);
  }

  /** A drop keeps the invariant: it permutes the identifiers. */
  lemma DropKeepsSequential(b: Board, result: DropResult)
    requires DropFits(b, result) && SequentialIds(b.items)
    ensures SequentialIds(OnDragEnd(b, result).items)
  {
    if result.destination.Some? {
      IdsOfMove(b.items, result.source, result.destination.value);
    }
  }

  /** The events that never delete a card. */
  predicate DeleteFree(events: seq<Event>) {
    forall k :: 0 <= k < |events| ==> !events[k].DeleteClick?
  }

  /** A history of drops, typing and adds keeps the identifier invariant. */
  lemma {:induction false} DeleteFreeKeepsSequential(b: Board, events: seq<Event>)
    requires SequentialIds(b.items) && Admissible(b, events) && DeleteFree(events)
    ensures SequentialIds(Run(b, events).items)
    decreases |events|
  {
    if events != [] {
      var e := events[0];
      match e {
        case Drop(result) => DropKeepsSequential(b, result);
        case Type(_) =>
        case AddClick => AddKeepsSequential(b);
      }
      var next := Step(b, e);
      assert DeleteFree(events[1..]) by {
        forall k | 0 <= k < |events[1..]| ensures !events[1..][k].DeleteClick? {
          assert events[1..][k] == events[k + 1];
        }
      }
      DeleteFreeKeepsSequential(next, events[1..]);
    }
  }

  /** No two cards share an identifier. */
  predicate DistinctIds(items: seq<Item>) {
    forall i, j :: 0 <= i < j < |items| ==> items[i].id != items[j].id
  }

  /** The identifiers of the cards are exactly `item-1` .. `item-n`, where
      `n` is the number of cards. */
  predicate IdsAreFirstN(items: seq<Item>) {
    && (forall i :: 0 <= i < |items| ==> exists k :: 1 <= k <= |items| && items[i].id == ItemId(k))
    && (forall k :: 1 <= k <= |items| ==> exists i :: 0 <= i < |items| && items[i].id == ItemId(k))
  }

  /** What the invariant means: distinct identifiers, `item-1` .. `item-n`. */
  lemma SequentialIdsMeaning(items: seq<Item>)
    requires SequentialIds(items)
    ensures DistinctIds(items) && IdsAreFirstN(items)
  {
    SequentialIdsDistinct(items);
    SequentialIdsCover(items);
    SequentialIdsInRange(items);
  }

  /** From the seed, any history without deletes leaves the cards with
      pairwise distinct identifiers forming exactly `item-1` .. `item-n`. */
  lemma DeleteFreeHistoryIds(events: seq<Event>)
    requires Admissible(Initial(), events) && DeleteFree(events)
    ensures DistinctIds(Run(Initial(), events).items)
    ensures IdsAreFirstN(Run(Initial(), events).items)
  {
    InitialSequential();
    DeleteFreeKeepsSequential(Initial(), events);
    SequentialIdsMeaning(Run(Initial(), events).items);
  }

  /** Deleting the identifier of the second of three cards, carried by no
      other card, keeps the first and third. */
  lemma DeleteSecondOfThree(a: Item, b: Item, c: Item, id: string)
    requires a.id != id && b.id == id && c.id != id
    ensures KeepOthers([a, b, c], id) == [a, c]
  {
    KeepOthersAbsent([c], id);
    KeepOthersCons(b, [c], id);
    assert [b] + [c] == [b, c];
    KeepOthersCons(a, [b, c], id);
    assert [a] + [b, c] == [a, b, c];
  }

  /** A history is its first interaction followed by the rest. */
  lemma RunCons(b: Board, e: Event, rest: seq<Event>)
    requires Enabled(b, e) && Admissible(Step(b, e), rest)
    ensures Admissible(b, [e] + rest)
    ensures Run(b, [e] + rest) == Run(Step(b, e), rest)
  {
    assert ([e] + rest)[1..] == rest;
  }

  /** A three-step history, unfolded. */
  lemma RunThree(b: Board, e0: Event, e1: Event, e2: Event)
    requires Enabled(b, e0) && Enabled(Step(b, e0), e1) && Enabled(Step(Step(b, e0), e1), e2)
    ensures Admissible(b, [e0, e1, e2])
    ensures Run(b, [e0, e1, e2]) == Step(Step(Step(b, e0), e1), e2)
  {
    var b1 := Step(b, e0);
    var b2 := Step(b1, e1);
    RunCons(b2, e2, []);
    assert [e2] + [] == [e2];
    RunCons(b1, e1, [e2]);
    assert [e1] + [e2] == [e1, e2];
    RunCons(b, e0, [e1, e2]);
    assert [e0] + [e1, e2] == [e0, e1, e2];
  }

  /** Deletes break uniqueness: deleting `item-2` from the seed and then
      adding any non-blank text gives two cards called `item-3`. */
  lemma DeleteThenAddCollides(text: string)
    requires !Text.IsBlank(text)
    ensures Admissible(Initial(), [DeleteClick("item-2"), Type(text), AddClick])
    ensures var items := Run(Initial(), [DeleteClick("item-2"), Type(text), AddClick]).items;
      && |items| == 3 && items[1].id == "item-3" && items[2].id == "item-3"
      && !DistinctIds(items)
  {
    var b0 := Initial();
    DeleteSecondOfThree(b0.items[0], b0.items[1], b0.items[2], "item-2");
    var b1 := DeleteTask(b0, "item-2");
    assert b1.items == [b0.items[0], b0.items[2]];
    var b2 := EditPending(b1, text);
    assert ItemId(3) == "item-3";
    RunThree(b0, DeleteClick("item-2"), Type(text), AddClick);
  }

  /** A four-step history, unfolded. */
  lemma RunFour(b: Board, e0: Event, e1: Event, e2: Event, e3: Event)
    requires Enabled(b, e0) && Enabled(Step(b, e0), e1) && Enabled(Step(Step(b, e0), e1), e2)
    requires Enabled(Step(Step(Step(b, e0), e1), e2), e3)
    ensures Admissible(b, [e0, e1, e2, e3])
    ensures Run(b, [e0, e1, e2, e3]) == Step(Step(Step(Step(b, e0), e1), e2), e3)
  {
    RunThree(Step(b, e0), e1, e2, e3);
    RunCons(b, e0, [e1, e2, e3]);
    assert [e0] + [e1, e2, e3] == [e0, e1, e2, e3];
  }

  /** The filter looks at the first card, then filters the rest. */
  lemma KeepOthersCons(x: Item, rest: seq<Item>, id: string)
    ensures KeepOthers([x] + rest, id)
         == if x.id == id then KeepOthers(rest, id) else [x] + KeepOthers(rest, id)
  {
    assert ([x] + rest)[1..] == rest;
  }

  /** Deleting the identifier of the second of four cards, carried by no
      other card, keeps the first, third and fourth. */
  lemma DeleteSecondOfFour(a: Item, b: Item, c: Item, d: Item, id: string)
    requires a.id != id && b.id == id && c.id != id && d.id != id
    ensures KeepOthers([a, b, c, d], id) == [a, c, d]
  {
    KeepOthersAbsent([d], id);
    KeepOthersCons(c, [d], id);
    assert [c] + [d] == [c, d];
    KeepOthersCons(b, [c, d], id);
    assert [b] + [c, d] == [b, c, d];
    KeepOthersCons(a, [b, c, d], id);
    assert [a] + [b, c, d] == [a, b, c, d];
  }

  /** The session's board after typing and adding. */
  lemma SeedSessionAdd(text: string)
    requires !Text.IsBlank(text)
    ensures Step(Step(Initial(), Type(text)), AddClick)
         == Board(Initial().items + [Item("item-4", text)], "")
  {
    assert ItemId(4) == "item-4";
  }

  /** The session's board after deleting `item-2`. */
  lemma SeedSessionDelete(added: Item)
    requires added.id == "item-4"
    ensures var seed := Initial().items;
      Step(Board(seed + [added], ""), DeleteClick("item-2")) == Board([seed[0], seed[2], added], "")
  {
    var seed := Initial().items;
    assert seed + [added] == [seed[0], seed[1], seed[2], added];
    DeleteSecondOfFour(seed[0], seed[1], seed[2], added, "item-2");
  }

  /** The session's board after dragging the first card to the last slot. */
  lemma SeedSessionDrop(a: Item, b: Item, c: Item)
    ensures Step(Board([a, b, c], ""), Drop(DropResult(0, Some(2)))) == Board([b, c, a], "")
  {
    Reorder.MoveMatchesReference([a, b, c], 0, 2);
  }

  /** A session on the seed: add a task, delete `item-2`, then drag the first
      card to the last slot. The new card is `item-4`, distinct from the seed
      identifiers, and the board ends as `item-3`, `item-4`, `item-1`. */
  lemma SeedSession(text: string)
    requires !Text.IsBlank(text)
    ensures var events := [Type(text), AddClick, DeleteClick("item-2"), Drop(DropResult(0, Some(2)))];
      && Admissible(Initial(), events)
      && Run(Initial(), events)
         == Board([Item("item-3", "Third task"), Item("item-4", text), Item("item-1", "First task")], "")
  {
    var seed := Initial().items;
    var added := Item("item-4", text);
    SeedSessionAdd(text);
    SeedSessionDelete(added);
    SeedSessionDrop(seed[0], seed[2], added);
    RunFour(Initial(), Type(text), AddClick, DeleteClick("item-2"), Drop(DropResult(0, Some(2))));
  }
}
