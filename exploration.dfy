/** Exploring the mansion (`explorarSalasComPistas`): starting from a room,
    each round collects the clue of the room the player stands in, then
    reads one choice: 'e' goes to the left room, 'd' to the right room, 's'
    ends the exploration, and anything else (a missing room included) keeps
    the player where they are. The choices typed at the console are given
    as a sequence. */
module Exploration {
  import opened ClueTree
  import opened Rooms

  /** What one choice does in a room. */
  datatype Transition = MoveTo(next: Room) | Stay | Quit

  /** The state after one round of the loop. */
  datatype StepResult = StepResult(room: Room, clues: Tree, stop: bool)

  /** The end of an exploration: the room last entered, the clues collected,
      how many choices were read, and whether it ended on 's' (otherwise the
      choices ran out). */
  datatype Outcome = Outcome(room: Room, clues: Tree, consumed: nat, quit: bool)

  /** The movement rules: a move happens only towards a room that exists,
      's' always ends the exploration, every other choice stays put. */
  function Decide(room: Room, choice: char): (t: Transition)
    ensures t.Quit? <==> choice == 's'
    ensures t.MoveTo? ==>
      (choice == 'e' && room.left == Some(t.next)) ||
      (choice == 'd' && room.right == Some(t.next))
    ensures t.Stay? <==>
      choice != 's' &&
      (choice != 'e' || room.left.None?) &&
      (choice != 'd' || room.right.None?)
  {
    if choice == 'e' && room.left.Some? then MoveTo(room.left.value)
    else if choice == 'd' && room.right.Some? then MoveTo(room.right.value)
    else if choice == 's' then Quit
    else Stay
  }

  /** Entering a room collects its clue when there is one. */
  function Collect(room: Room, clues: Tree): (r: Tree)
    ensures Elems(r) == if |room.clue| > 0 then Elems(clues) + {room.clue} else Elems(clues)
    ensures |room.clue| == 0 ==> r == clues
  {
    if |room.clue| > 0 then Insert(clues, room.clue) else clues
  }

  /** One round of the loop: collect, then act on one choice. */
  function Step(room: Room, clues: Tree, choice: char): (s: StepResult)
    ensures s.clues == Collect(room, clues)
    ensures s.stop <==> choice == 's'
    ensures choice == 'e' && room.left.Some? ==> s.room == room.left.value
    ensures choice == 'd' && room.right.Some? ==> s.room == room.right.value
    ensures (choice != 'e' || room.left.None?) && (choice != 'd' || room.right.None?) ==> s.room == room
    ensures s.room == room || IsChild(s.room, room)
  {
    var collected := Collect(room, clues);
    match Decide(room, choice)
    case MoveTo(next) => StepResult(next, collected, false)
    case Stay => StepResult(room, collected, false)
    case Quit => StepResult(room, collected, true)
  }

  /** The whole loop over the given choices. Reading stops at the first 's';
      when the choices run out the room just entered has had its clue
      collected, as collecting comes before reading in each round. */
  function Run(room: Room, clues: Tree, choices: seq<char>): (o: Outcome)
    ensures o.consumed <= |choices|
    ensures o.quit ==>
      0 < o.consumed && choices[o.consumed - 1] == 's' &&
      forall k :: 0 <= k < o.consumed - 1 ==> choices[k] != 's'
    ensures !o.quit ==> o.consumed == |choices| && 's' !in choices
    decreases |choices|
  {
    if choices == [] then Outcome(room, Collect(room, clues), 0, false)
    else
      var s := Step(room, clues, choices[0]);
      if s.stop then Outcome(s.room, s.clues, 1, true)
      else
        var o := Run(s.room, s.clues, choices[1..]);
        assert choices == [choices[0]] + choices[1..];
        o.(consumed := o.consumed + 1)
  }

  /** The room a choice leads to from `room` (itself when it does not move). */
  function Target(room: Room, choice: char): Room {
    match Decide(room, choice)
    case MoveTo(next) => next
    case _ => room
  }

  /** The rooms the player stands in at the start of each round, in order:
      the k-th choice, never an 's', leads from the k-th room to the next,
      and the trace ends on the first 's' or when the choices run out. */
  function Trace(room: Room, choices: seq<char>): (tr: seq<Room>)
    ensures 0 < |tr| <= |choices| + 1 && tr[0] == room
    ensures forall k :: 0 <= k < |tr| - 1 ==>
      choices[k] != 's' && tr[k + 1] == Target(tr[k], choices[k])
    ensures |tr| == |choices| + 1 || choices[|tr| - 1] == 's'
    ensures IsWalk(tr)
    decreases |choices|
  {
    if choices == [] then [room]
    else
      match Decide(room, choices[0])
      case Quit => [room]
      case Stay =>
        var rest := Trace(room, choices[1..]);
        assert forall k :: 1 <= k < |rest| ==> ([room] + rest)[k] == rest[k - 1];
        [room] + rest
      case MoveTo(next) =>
        var rest := Trace(next, choices[1..]);
        assert forall k :: 1 <= k < |rest| ==> ([room] + rest)[k] == rest[k - 1];
        [room] + rest
  }

  /** Each room of the sequence is the previous one or one of its children. */
  ghost predicate IsWalk(tr: seq<Room>) {
    forall k :: 0 <= k < |tr| - 1 ==> tr[k + 1] == tr[k] || IsChild(tr[k + 1], tr[k])
  }

  /** The non-empty clues of the given rooms, in order. */
  function FoundClues(rooms: seq<Room>): (cs: seq<string>)
    ensures forall y :: y in cs <==>
      exists k :: 0 <= k < |rooms| && |rooms[k].clue| > 0 && rooms[k].clue == y
    decreases |rooms|
  {
    if rooms == [] then []
    else
      var rest := FoundClues(rooms[1..]);
      assert forall k :: 1 <= k < |rooms| ==> rooms[k] == rooms[1..][k - 1];
      if |rooms[0].clue| > 0 then [rooms[0].clue] + rest else rest
  }

  /** `main`'s end of session: explore from the hall with no clues, then
      list what was collected in alphabetical order. */
  function Session(hall: Room, choices: seq<char>): (listing: seq<string>)
    ensures Ascending(listing)
    ensures forall y :: y in listing <==> y in FoundClues(Trace(hall, choices))
    ensures listing == [] <==> FoundClues(Trace(hall, choices)) == []
  {
    var t := Run(hall, Leaf, choices).clues;
    RunFollowsTrace(hall, Leaf, choices);
    ListingIsSortedDistinct(FoundClues(Trace(hall, choices)));
    InOrder(t)
  }

  /** `explorarSalasComPistas`: the loop itself, reassigning the current room
      and the clue tree in each round. */
  method Explore(start: Room, clues: Tree, choices: seq<char>)
    returns (current: Room, collected: Tree, used: nat, stopped: bool)
    ensures Outcome(current, collected, used, stopped) == Run(start, clues, choices)
    ensures current in Subtree(start)
    ensures BST(clues) ==> BST(collected)
    ensures stopped <==> 's' in choices
  {
    current, collected := start, clues;
    var i := 0;
    while true
      invariant 0 <= i <= |choices|
      invariant Run(start, clues, choices) ==
        var o := Run(current, collected, choices[i..]); o.(consumed := o.consumed + i)
      decreases |choices| - i
    {
      if |current.clue| > 0 {
        collected := Insert(collected, current.clue);
      }
      if i == |choices| {
        used, stopped := i, false;
        break;
      }
      var choice := choices[i];
      assert choices[i..][1..] == choices[i + 1..];
      i := i + 1;
      if choice == 'e' && current.left.Some? {
        current := current.left.value;
      } else if choice == 'd' && current.right.Some? {
        current := current.right.value;
      } else if choice == 's' {
        used, stopped := i, true;
        break;
      }
    }
    RunFollowsTrace(start, clues, choices);
    TraceDescends(start, choices);
    if BST(clues) {
      RunKeepsBST(start, clues, choices);
    }
  }

  /** Entering a room with no clue changes nothing; otherwise the clue tree
      stays a search tree. */
  lemma CollectKeepsBST(room: Room, clues: Tree)
    requires BST(clues)
    ensures BST(Collect(room, clues))
  {
    if |room.clue| > 0 {
      InsertKeepsBST(clues, room.clue);
    }
  }

  /** A step moves strictly deeper into the map or stays put. */
  lemma StepDescends(room: Room, clues: Tree, choice: char)
    ensures var s := Step(room, clues, choice);
      s.room == room || (s.room in Subtree(room) && Height(s.room) < Height(room))
  {
    var s := Step(room, clues, choice);
    if s.room != room {
      ChildIsLower(s.room, room);
    }
  }

  /** An invalid choice, a missing room included, keeps the player in the
      same room, and the next round re-collects the same clue without
      changing the tree. */
  lemma InvalidChoiceChangesNothing(room: Room, clues: Tree, choice: char, again: char)
    requires BST(clues)
    requires choice != 's'
    requires choice != 'e' || room.left.None?
    requires choice != 'd' || room.right.None?
    ensures var s := Step(room, clues, choice);
      s.room == room && !s.stop &&
      Step(room, s.clues, again).clues == s.clues
  {
    if |room.clue| > 0 {
      InsertIdempotent(clues, room.clue);
    }
  }

  /** The loop ends in the last room of the trace, and its clue tree is what
      inserting the clues found along the trace, in order, gives. */
  lemma {:induction false} RunFollowsTrace(room: Room, clues: Tree, choices: seq<char>)
    ensures var tr := Trace(room, choices);
      Run(room, clues, choices).room == tr[|tr| - 1] &&
      Run(room, clues, choices).clues == InsertAll(clues, FoundClues(tr))
    decreases |choices|
  {
    var tr := Trace(room, choices);
    if choices == [] || choices[0] == 's' {
      assert tr == [room];
      assert FoundClues(tr) == if |room.clue| > 0 then [room.clue] else [];
    } else {
      var s := Step(room, clues, choices[0]);
      RunFollowsTrace(s.room, s.clues, choices[1..]);
      var rest := Trace(s.room, choices[1..]);
      assert tr == [room] + rest;
      assert tr[1..] == rest;
      if |room.clue| > 0 {
        assert FoundClues(tr) == [room.clue] + FoundClues(rest);
        assert ([room.clue] + FoundClues(rest))[1..] == FoundClues(rest);
      } else {
        assert FoundClues(tr) == FoundClues(rest);
      }
    }
  }

  /** Exploring adds exactly the clues found in the rooms visited. */
  lemma RunCollectsFoundClues(room: Room, clues: Tree, choices: seq<char>)
    ensures Elems(Run(room, clues, choices).clues) == Elems(clues) + set y | y in FoundClues(Trace(room, choices))
  {
    RunFollowsTrace(room, clues, choices);
  }

  /** Exploring keeps the clue tree a search tree. */
  lemma RunKeepsBST(room: Room, clues: Tree, choices: seq<char>)
    requires BST(clues)
    ensures BST(Run(room, clues, choices).clues)
  {
    RunFollowsTrace(room, clues, choices);
    InsertAllKeepsBST(clues, FoundClues(Trace(room, choices)));
  }

  lemma {:induction false} WalkDescends(tr: seq<Room>, i: nat, j: nat)
    requires IsWalk(tr)
    requires i <= j < |tr|
    ensures tr[j] in Subtree(tr[i])
    decreases j - i
  {
    if i < j {
      WalkDescends(tr, i + 1, j);
      if tr[i + 1] != tr[i] {
        ChildIsLower(tr[i + 1], tr[i]);
      }
    }
  }

  /** Every later room of the exploration lies below every earlier one. */
  lemma {:induction false} TraceDescends(room: Room, choices: seq<char>)
    ensures var tr := Trace(room, choices);
      forall i, j :: 0 <= i <= j < |tr| ==> tr[j] in Subtree(tr[i])
  {
    var tr := Trace(room, choices);
    forall i, j | 0 <= i <= j < |tr|
      ensures tr[j] in Subtree(tr[i])
    {
      WalkDescends(tr, i, j);
    }
  }

  /** No backtracking: once the player has left a room, they never stand in
      it again. */
  lemma {:induction false} TraceNeverReturns(room: Room, choices: seq<char>)
    ensures var tr := Trace(room, choices);
      forall i, k, j :: 0 <= i <= k <= j < |tr| && tr[j] == tr[i] ==> tr[k] == tr[i]
  {
    var tr := Trace(room, choices);
    forall i, k, j | 0 <= i <= k <= j < |tr| && tr[j] == tr[i]
      ensures tr[k] == tr[i]
    {
      WalkDescends(tr, i, k);
      WalkDescends(tr, k, j);
      SubtreeIsLower(tr[k], tr[i]);
      SubtreeIsLower(tr[j], tr[k]);
    }
  }

  /** The listing does not depend on the order in which clues were met:
      two explorations that find the same clues list them identically. */
  lemma SessionDependsOnlyOnCluesFound(hall1: Room, choices1: seq<char>, hall2: Room, choices2: seq<char>)
    requires forall y :: y in FoundClues(Trace(hall1, choices1)) <==> y in FoundClues(Trace(hall2, choices2))
    ensures Session(hall1, choices1) == Session(hall2, choices2)
  {
    AscendingUnique(Session(hall1, choices1), Session(hall2, choices2));
  }
}
