/** The map of the mansion (`Sala`): a binary tree of rooms, each with a
    name, a clue text (empty when the room holds none) and an optional room
    to its left and to its right. The map is built once and never changed
    while it is explored, so it is a value here. */
module Rooms {

  datatype Option<T> = None | Some(value: T)

  datatype Room = Room(name: string, clue: string, left: Option<Room>, right: Option<Room>)

  /** A room with no way onward. */
  predicate IsDeadEnd(r: Room) {
    r.left.None? && r.right.None?
  }

  /** `c` is reached from `r` by one move. */
  predicate IsChild(c: Room, r: Room) {
    r.left == Some(c) || r.right == Some(c)
  }

  /** `criarSala`: a room with the given name and clue and no exits yet. */
  function CreateRoom(name: string, clue: string): (r: Room)
    ensures r.name == name && r.clue == clue
    ensures IsDeadEnd(r) && Subtree(r) == {r} && Height(r) == 0
  {
    Room(name, clue, None, None)
  }

  /** The rooms reachable from `r`, `r` included. */
  function Subtree(r: Room): set<Room> {
    {r}
    + (match r.left case None => {} case Some(c) => Subtree(c))
    + (match r.right case None => {} case Some(c) => Subtree(c))
  }

  /** The length of the longest walk onward from `r`. */
  function Height(r: Room): nat {
    var hl := match r.left case None => 0 case Some(c) => 1 + Height(c);
    var hr := match r.right case None => 0 case Some(c) => 1 + Height(c);
    if hl < hr then hr else hl
  }

  /** A move goes strictly down the map. */
  lemma ChildIsLower(c: Room, r: Room)
    requires IsChild(c, r)
    ensures c in Subtree(r) && Subtree(c) <= Subtree(r)
    ensures Height(c) < Height(r)
  {
  }

  /** Every room below `r` is strictly lower than `r`, so a walk that has
      left a room can never come back to it. */
  lemma {:induction false} SubtreeIsLower(x: Room, r: Room)
    requires x in Subtree(r)
    ensures x == r || Height(x) < Height(r)
  {
    if x != r {
      match r.left {
        case None =>
        case Some(c) =>
          if x in Subtree(c) {
            SubtreeIsLower(x, c);
            return;
          }
      }
      match r.right {
        case None =>
        case Some(c) =>
          SubtreeIsLower(x, c);
      }
    }
  }
}
