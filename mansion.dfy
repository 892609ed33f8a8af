/**
 * The mansion map (`Sala`, `criarSala`) and its exploration (`explorarSalas`).
 *
 * Rooms live in an arena: a room's exits are indices of other rooms, and the
 * per-room "clue collected" flags (`pista_encontrada`) are an array the walk
 * updates in place. The console prompt becomes a sequence of command characters.
 */
module Mansion {
  import opened Wrappers
  import opened ClueTree

  /** A room: its name and its left and right exits (`esquerda`, `direita`; None is NULL). */
  datatype Room = Room(name: string, left: Option<nat>, right: Option<nat>)

  /** Exits lead to existing rooms further down the tree, so no walk can come back up. */
  predicate MapWellFormed(rooms: seq<Room>) {
    forall i :: 0 <= i < |rooms| ==> ExitOk(rooms, i, rooms[i].left) && ExitOk(rooms, i, rooms[i].right)
  }

  predicate ExitOk(rooms: seq<Room>, from: nat, exit: Option<nat>) {
    exit.Some? ==> from < exit.value < |rooms|
  }

  predicate IsDeadEnd(room: Room) {
    room.left.None? && room.right.None?
  }

  /** criarSala: a room with no exits (its flag starts unset, see `Manor`). */
  function CreateRoom(name: string): (r: Room)
    ensures r.name == name && IsDeadEnd(r)
  {
    Room(name, None, None)
  }

  /** The clue found in a room, by name, as the chain of strcmp tests in explorarSalas. */
  function ClueOf(name: string): (r: Option<string>)
    ensures r.Some? <==> name in {"Biblioteca", "Escritorio", "Quarto Principal", "Cozinha", "Jardim de Inverno"}
  {
    if name == "Biblioteca" then Some("Bilhete rasgado com data antiga")
    else if name == "Escritorio" then Some("Chave dourada com brasao")
    else if name == "Quarto Principal" then Some("Diario com anotacoes estranhas")
    else if name == "Cozinha" then Some("Copo quebrado")
    else if name == "Jardim de Inverno" then Some("Pegadas na lama")
    else None
  }

  /** The map wired up in main: hall, two children, four grandchildren. */
  function FixedMap(): (rooms: seq<Room>)
    ensures MapWellFormed(rooms) && |rooms| == 7
  {
    [ CreateRoom("Hall de Entrada").(left := Some(1), right := Some(2)),
      CreateRoom("Biblioteca").(left := Some(3), right := Some(4)),
      CreateRoom("Sala de Jantar").(left := Some(5), right := Some(6)),
      CreateRoom("Escritorio"),
      CreateRoom("Quarto Principal"),
      CreateRoom("Cozinha"),
      CreateRoom("Jardim de Inverno") ]
  }

  datatype Command = GoLeft | GoRight | Leave | Unknown

  /** The reading of one input character. */
  function Parse(c: char): Command {
    if c == 'e' || c == 'E' then GoLeft
    else if c == 'd' || c == 'D' then GoRight
    else if c == 's' || c == 'S' then Leave
    else Unknown
  }

  /** Why the walk ended: a room with no exits, the player's 's', or no more input. */
  datatype Stop = DeadEnd | PlayerLeft | InputExhausted

  /** The exploration state: the current room, the flags, and the clue tree. */
  datatype Explorer = Explorer(room: nat, collected: seq<bool>, clues: Tree)

  predicate Fits(rooms: seq<Room>, s: Explorer) {
    s.room < |rooms| && |s.collected| == |rooms|
  }

  /** Entering a room: a clue room not yet searched yields its clue once and is flagged. */
  function Collect(rooms: seq<Room>, s: Explorer): (r: Explorer)
    requires Fits(rooms, s)
    ensures Fits(rooms, r) && r.room == s.room
  {
    var clue := ClueOf(rooms[s.room].name);
    if clue.Some? && !s.collected[s.room] then
      s.(collected := s.collected[s.room := true], clues := Insert(s.clues, clue.value))
    else s
  }

  /** The room an exit leads to, or the same room where the exit is NULL. */
  function Follow(exit: Option<nat>, here: nat): nat {
    if exit.Some? then exit.value else here
  }

  /**
   * explorarSalas: at each room collect its clue, stop at a dead end, otherwise read
   * one command; a move to a missing exit and an unknown command keep the room.
   */
  function Walk(rooms: seq<Room>, s: Explorer, commands: seq<char>): (r: (Explorer, Stop))
    requires MapWellFormed(rooms) && Fits(rooms, s)
    ensures Fits(rooms, r.0)
    decreases |commands|
  {
    var v := Collect(rooms, s);
    var here := rooms[v.room];
    if IsDeadEnd(here) then (v, DeadEnd)
    else if commands == [] then (v, InputExhausted)
    else match Parse(commands[0])
      case GoLeft => Walk(rooms, v.(room := Follow(here.left, v.room)), commands[1..])
      case GoRight => Walk(rooms, v.(room := Follow(here.right, v.room)), commands[1..])
      case Leave => (v, PlayerLeft)
      case Unknown => Walk(rooms, v, commands[1..])
  }

  /** Entering a room twice yields nothing the second time. */
  lemma CollectIdempotent(rooms: seq<Room>, s: Explorer)
    requires Fits(rooms, s)
    ensures Collect(rooms, Collect(rooms, s)) == Collect(rooms, s)
  {
  }

  /** An unrecognised command leaves the outcome of the walk as if it had not been typed. */
  lemma UnknownCommandIgnored(rooms: seq<Room>, s: Explorer, c: char, rest: seq<char>)
    requires MapWellFormed(rooms) && Fits(rooms, s) && Parse(c) == Unknown
    ensures Walk(rooms, s, [c] + rest) == Walk(rooms, s, rest)
  {
    var v := Collect(rooms, s);
    assert ([c] + rest)[1..] == rest;
    CollectIdempotent(rooms, s);
    WalkFromCollected(rooms, s, rest);
  }

  /** A move towards a missing exit leaves the outcome of the walk as if it had not been typed. */
  lemma MissingExitIgnored(rooms: seq<Room>, s: Explorer, c: char, rest: seq<char>)
    requires MapWellFormed(rooms) && Fits(rooms, s)
    requires (Parse(c) == GoLeft && rooms[s.room].left.None?) || (Parse(c) == GoRight && rooms[s.room].right.None?)
    ensures Walk(rooms, s, [c] + rest) == Walk(rooms, s, rest)
  {
    assert ([c] + rest)[1..] == rest;
    CollectIdempotent(rooms, s);
    WalkFromCollected(rooms, s, rest);
  }

  /** Starting from a state whose room was already entered gives the same walk. */
  lemma WalkFromCollected(rooms: seq<Room>, s: Explorer, commands: seq<char>)
    requires MapWellFormed(rooms) && Fits(rooms, s)
    ensures Walk(rooms, Collect(rooms, s), commands) == Walk(rooms, s, commands)
  {
    CollectIdempotent(rooms, s);
  }

  /** Room b is room a or can be reached from it through left and right exits. */
  predicate Reaches(rooms: seq<Room>, a: nat, b: nat)
    requires MapWellFormed(rooms)
    decreases |rooms| - a
  {
    || a == b
    || (a < |rooms| && rooms[a].left.Some? && Reaches(rooms, rooms[a].left.value, b))
    || (a < |rooms| && rooms[a].right.Some? && Reaches(rooms, rooms[a].right.value, b))
  }

  /** Exits only lead further down, so a reachable room is never above its origin. */
  lemma {:induction false} ReachesDescends(rooms: seq<Room>, a: nat, b: nat)
    requires MapWellFormed(rooms) && Reaches(rooms, a, b)
    ensures a <= b
    decreases |rooms| - a
  {
    if a != b {
      if rooms[a].left.Some? && Reaches(rooms, rooms[a].left.value, b) {
        ReachesDescends(rooms, rooms[a].left.value, b);
      } else {
        ReachesDescends(rooms, rooms[a].right.value, b);
      }
    }
  }

  /** Moves only follow exits: the walk ends in a room reachable from where it started. */
  lemma {:induction false} WalkReaches(rooms: seq<Room>, s: Explorer, commands: seq<char>)
    requires MapWellFormed(rooms) && Fits(rooms, s)
    ensures Reaches(rooms, s.room, Walk(rooms, s, commands).0.room)
    decreases |commands|
  {
    var v := Collect(rooms, s);
    var here := rooms[v.room];
    if !IsDeadEnd(here) && commands != [] {
      match Parse(commands[0])
      case GoLeft =>
        WalkReaches(rooms, v.(room := Follow(here.left, v.room)), commands[1..]);
      case GoRight =>
        WalkReaches(rooms, v.(room := Follow(here.right, v.room)), commands[1..]);
      case Leave =>
      case Unknown =>
        WalkReaches(rooms, v, commands[1..]);
    }
  }

  /**
   * The walk reports a dead end exactly when it ends in a room without exits: it stops
   * at every leaf, and input running out or the player leaving happens only elsewhere.
   */
  lemma {:induction false} WalkHaltsAtLeaf(rooms: seq<Room>, s: Explorer, commands: seq<char>)
    requires MapWellFormed(rooms) && Fits(rooms, s)
    ensures var r := Walk(rooms, s, commands);
      r.1 == DeadEnd <==> IsDeadEnd(rooms[r.0.room])
    decreases |commands|
  {
    var v := Collect(rooms, s);
    var here := rooms[v.room];
    if !IsDeadEnd(here) && commands != [] {
      match Parse(commands[0])
      case GoLeft => WalkHaltsAtLeaf(rooms, v.(room := Follow(here.left, v.room)), commands[1..]);
      case GoRight => WalkHaltsAtLeaf(rooms, v.(room := Follow(here.right, v.room)), commands[1..]);
      case Leave =>
      case Unknown => WalkHaltsAtLeaf(rooms, v, commands[1..]);
    }
  }

  /** Exploring keeps the clue tree a search tree. */
  lemma {:induction false} WalkKeepsBst(rooms: seq<Room>, s: Explorer, commands: seq<char>)
    requires MapWellFormed(rooms) && Fits(rooms, s) && IsBst(s.clues)
    ensures IsBst(Walk(rooms, s, commands).0.clues)
    decreases |commands|
  {
    var v := Collect(rooms, s);
    var here := rooms[v.room];
    if !IsDeadEnd(here) && commands != [] {
      match Parse(commands[0])
      case GoLeft => WalkKeepsBst(rooms, v.(room := Follow(here.left, v.room)), commands[1..]);
      case GoRight => WalkKeepsBst(rooms, v.(room := Follow(here.right, v.room)), commands[1..]);
      case Leave =>
      case Unknown => WalkKeepsBst(rooms, v, commands[1..]);
    }
  }

  /** The clues of the rooms whose flag was unset before and is set after. */
  function NewlyCollected(rooms: seq<Room>, before: seq<bool>, after: seq<bool>): set<string>
    requires |before| == |rooms| && |after| == |rooms|
  {
    set i | 0 <= i < |rooms| && after[i] && !before[i] && ClueOf(rooms[i].name).Some? :: ClueOf(rooms[i].name).value
  }

  /** Flags are only ever set, and only on rooms that hold a clue. */
  predicate Grows(rooms: seq<Room>, before: seq<bool>, after: seq<bool>) {
    && |before| == |rooms| && |after| == |rooms|
    && (forall i :: 0 <= i < |rooms| && before[i] ==> after[i])
    && (forall i :: 0 <= i < |rooms| && after[i] && !before[i] ==> ClueOf(rooms[i].name).Some?)
  }

  lemma NewlyCollectedChain(rooms: seq<Room>, a: seq<bool>, b: seq<bool>, c: seq<bool>)
    requires Grows(rooms, a, b) && Grows(rooms, b, c)
    ensures Grows(rooms, a, c)
    ensures NewlyCollected(rooms, a, c) == NewlyCollected(rooms, a, b) + NewlyCollected(rooms, b, c)
  {
    var ac, ab, bc := NewlyCollected(rooms, a, c), NewlyCollected(rooms, a, b), NewlyCollected(rooms, b, c);
    forall k | k in ac ensures k in ab + bc {
      var i :| 0 <= i < |rooms| && c[i] && !a[i] && ClueOf(rooms[i].name).Some? && ClueOf(rooms[i].name).value == k;
      if b[i] {
        assert k in ab;
      } else {
        assert k in bc;
      }
    }
    forall k | k in ab + bc ensures k in ac {
      if k in ab {
        var i :| 0 <= i < |rooms| && b[i] && !a[i] && ClueOf(rooms[i].name).Some? && ClueOf(rooms[i].name).value == k;
        assert c[i];
      } else {
        var i :| 0 <= i < |rooms| && c[i] && !b[i] && ClueOf(rooms[i].name).Some? && ClueOf(rooms[i].name).value == k;
        assert !a[i];
      }
    }
  }

  /** Entering a room gains exactly the clue of the room it flags, if any. */
  lemma CollectGains(rooms: seq<Room>, s: Explorer)
    requires Fits(rooms, s)
    ensures var v := Collect(rooms, s);
      Grows(rooms, s.collected, v.collected)
      && Keys(v.clues) == Keys(s.clues) + NewlyCollected(rooms, s.collected, v.collected)
  {
    var v := Collect(rooms, s);
    var clue := ClueOf(rooms[s.room].name);
    var gained := NewlyCollected(rooms, s.collected, v.collected);
    if clue.Some? && !s.collected[s.room] {
      assert gained == {clue.value} by {
        forall k | k in gained ensures k == clue.value {
          var i :| 0 <= i < |rooms| && v.collected[i] && !s.collected[i] && ClueOf(rooms[i].name).Some? && ClueOf(rooms[i].name).value == k;
          assert i == s.room;
        }
        assert v.collected[s.room];
      }
    } else {
      assert gained == {};
    }
  }

  /**
   * Over a whole walk flags are only set, only on clue rooms, and the clues gained are
   * exactly the clues of the rooms whose flag the walk set.
   */
  lemma {:induction false} WalkCollects(rooms: seq<Room>, s: Explorer, commands: seq<char>)
    requires MapWellFormed(rooms) && Fits(rooms, s)
    ensures var e := Walk(rooms, s, commands).0;
      Grows(rooms, s.collected, e.collected)
      && Keys(e.clues) == Keys(s.clues) + NewlyCollected(rooms, s.collected, e.collected)
    decreases |commands|
  {
    var v := Collect(rooms, s);
    CollectGains(rooms, s);
    var here := rooms[v.room];
    var e := Walk(rooms, s, commands).0;
    if IsDeadEnd(here) || commands == [] || Parse(commands[0]) == Leave {
      assert e == v;
      NewlyCollectedChain(rooms, s.collected, v.collected, v.collected);
    } else {
      var next := match Parse(commands[0])
        case GoLeft => v.(room := Follow(here.left, v.room))
        case GoRight => v.(room := Follow(here.right, v.room))
        case _ => v;
      assert e == Walk(rooms, next, commands[1..]).0;
      WalkCollects(rooms, next, commands[1..]);
      NewlyCollectedChain(rooms, s.collected, v.collected, e.collected);
    }
  }

  /** The house: the fixed map and the flags its rooms carry. */
  class Manor {
    const rooms: seq<Room>
    const collected: array<bool>

    ghost predicate Valid()
      reads collected
    {
      MapWellFormed(rooms) && collected.Length == |rooms|
    }

    /** main, lines 65-73: build the seven rooms, none searched yet. */
    constructor ()
      ensures Valid() && fresh(collected)
      ensures rooms == FixedMap()
      ensures collected[..] == seq(|rooms|, _ => false)
    {
      rooms := FixedMap();
      collected := new bool[7](_ => false);
    }

    /**
     * explorarSalas from room `start`, with the clue tree `clues` (*raizPistas on entry);
     * returns the new tree (*raizPistas on exit), the room where the walk ended and why.
     */
    method Explore(start: nat, clues: Tree, commands: seq<char>) returns (found: Tree, last: nat, stop: Stop)
      requires Valid() && start < |rooms|
      modifies collected
      ensures Valid()
      ensures Walk(rooms, Explorer(start, old(collected[..]), clues), commands)
           == (Explorer(last, collected[..], found), stop)
    {
      ghost var initial := Explorer(start, collected[..], clues);
      var current: nat := start;
      found := clues;
      var i := 0;
      while true
        invariant current < |rooms| && i <= |commands|
        invariant Walk(rooms, Explorer(current, collected[..], found), commands[i..]) == Walk(rooms, initial, commands)
        decreases |commands| - i
      {
        var here := rooms[current];
        var clue := ClueOf(here.name);
        if clue.Some? && !collected[current] {
          found := Insert(found, clue.value);
          collected[current] := true;
        }
        if IsDeadEnd(here) {
          return found, current, DeadEnd;
        }
        if i == |commands| {
          return found, current, InputExhausted;
        }
        var choice := commands[i];
        assert commands[i..][1..] == commands[i + 1..];
        i := i + 1;
        if choice == 'e' || choice == 'E' {
          if here.left.Some? {
            current := here.left.value;
          }
        } else if choice == 'd' || choice == 'D' {
          if here.right.Some? {
            current := here.right.value;
          }
        } else if choice == 's' || choice == 'S' {
          return found, current, PlayerLeft;
        }
      }
    }
  }
}
